/**
 * scripts/translator.py: `Translator.translate` asks the translation provider for one
 * text and capitalises the answer; `Translator.translate_data` does so for every value
 * of a dict, overwriting the values in place. The provider is the class `Service`:
 * a fixed but unknown answer per request, and a log of the requests made.
 */
module Translation {
  import opened Errors
  import opened PyStr
  import opened Dict

  /** One call of the provider: translate `text` from `source` into `target`. */
  datatype Request = Request(source: string, target: string, text: string)

  /** What the provider gives back: a translation, or a failure (an exception raised by the provider). */
  datatype Reply = Translated(text: string) | Unavailable

  /** The translation provider, with the requests it has received so far. */
  class Service {
    const answer: Request -> Reply
    var calls: seq<Request>

    constructor (answer: Request -> Reply)
      ensures this.answer == answer && calls == []
    {
      this.answer := answer;
      calls := [];
    }

    method Ask(q: Request) returns (r: Reply)
      modifies this
      ensures r == answer(q)
      ensures calls == old(calls) + [q]
    {
      r := answer(q);
      calls := calls + [q];
    }
  }

  /*************************************************************
   * `str.capitalize`
   *************************************************************/

  /** `s.capitalize()`: the first character uppered, the rest lowered. */
  function Capitalize(s: string): string
  {
    if s == [] then [] else [UpperChar(s[0])] + Lower(s[1..])
  }

  /** Capitalising keeps the length, uppers the first character and lowers all the others. */
  lemma CapitalizeShape(s: string)
    ensures |Capitalize(s)| == |s|
    ensures s != [] ==> Capitalize(s)[0] == UpperChar(s[0]) && Capitalize(s)[1..] == Lower(s[1..])
  {
    if s != [] {
      LowerLength(s[1..]);
    }
  }

  lemma UpperCharIdempotent(c: char)
    ensures UpperChar(UpperChar(c)) == UpperChar(c)
  {
  }

  lemma UpperOfLowerChar(c: char)
    ensures UpperChar(LowerChar(c)) == UpperChar(c)
  {
  }

  /** Capitalising twice is capitalising once. */
  lemma CapitalizeIdempotent(s: string)
    ensures Capitalize(Capitalize(s)) == Capitalize(s)
  {
    if s != [] {
      CapitalizeShape(s);
      UpperCharIdempotent(s[0]);
      LowerIdempotent(s[1..]);
    }
  }

  /** Capitalising forgets the case the text came in. */
  lemma CapitalizeIgnoresCase(s: string)
    ensures Capitalize(Lower(s)) == Capitalize(s)
    ensures Capitalize(Upper(s)) == Capitalize(s)
  {
    if s != [] {
      assert Lower(s)[0] == LowerChar(s[0]) && Lower(s)[1..] == Lower(s[1..]);
      assert Upper(s)[0] == UpperChar(s[0]) && Upper(s)[1..] == Upper(s[1..]);
      UpperOfLowerChar(s[0]);
      UpperCharIdempotent(s[0]);
      LowerIdempotent(s[1..]);
      LowerOfUpper(s[1..]);
    }
  }

  /*************************************************************
   * `Translator`
   *************************************************************/

  /** The fields of a `Translator`; they are never changed after construction. */
  datatype Translator = Translator(sourceLanguage: string, targetLanguage: string, capitalize: bool)

  /** `Translator(source, target)`: `capitalize` defaults to true. */
  function NewTranslator(sourceLanguage: string, targetLanguage: string): Translator
  {
    Translator(sourceLanguage, targetLanguage, true)
  }

  /** The provider request `translate` makes for a text. */
  function RequestFor(t: Translator, text: string): Request
  {
    Request(t.sourceLanguage, t.targetLanguage, text)
  }

  /** `translate(text)`: the provider's answer, capitalised when the translator says so. */
  function TranslateSpec(t: Translator, answer: Request -> Reply, text: string): Result<string>
  {
    match answer(RequestFor(t, text))
    case Unavailable => Err(ServiceUnavailable(text))
    case Translated(x) => Ok(if t.capitalize then Capitalize(x) else x)
  }

  /** `translate` returns Python's `capitalize()` of the answer, or the answer itself when capitalising is off. */
  lemma TranslateCases(t: Translator, answer: Request -> Reply, text: string)
    requires answer(RequestFor(t, text)).Translated?
    ensures var x := answer(RequestFor(t, text)).text;
      && TranslateSpec(t, answer, text).Ok?
      && (t.capitalize ==> TranslateSpec(t, answer, text).value == Capitalize(x))
      && (!t.capitalize ==> TranslateSpec(t, answer, text).value == x)
  {
  }

  /** A default translator capitalises, and what it returns is unchanged by capitalising again. */
  lemma DefaultCapitalizes(s: string, g: string, answer: Request -> Reply, text: string)
    requires TranslateSpec(NewTranslator(s, g), answer, text).Ok?
    ensures var r := TranslateSpec(NewTranslator(s, g), answer, text).value;
      Capitalize(r) == r
  {
    CapitalizeIdempotent(answer(RequestFor(NewTranslator(s, g), text)).text);
  }

  /** `Translator.translate`: one provider call. */
  method Translate(t: Translator, svc: Service, text: string) returns (r: Result<string>)
    modifies svc
    ensures r == TranslateSpec(t, svc.answer, text)
    ensures svc.calls == old(svc.calls) + [RequestFor(t, text)]
  {
    var reply := svc.Ask(Request(t.sourceLanguage, t.targetLanguage, text));
    match reply
    case Unavailable =>
      r := Err(ServiceUnavailable(text));
    case Translated(x) =>
      var y := x;
      if t.capitalize {
        y := Capitalize(x);
      }
      r := Ok(y);
  }

  /*************************************************************
   * `translate_data`
   *************************************************************/

  /** The dict afterwards, the requests made, and the error raised if any. */
  datatype Outcome = Outcome(items: Entries, asked: seq<Request>, error: Option<Error>)

  /**
   * The loop of `translate_data` from entry `i` on: the value of entry `i` is translated
   * and written back under its key, then the loop goes on with the next entry; the first
   * failure stops it, leaving the values not reached as they were.
   */
  function Run(t: Translator, answer: Request -> Reply, items: Entries, i: nat): Outcome
    decreases |items| - i
  {
    if i >= |items| then Outcome(items, [], None)
    else
      var q := RequestFor(t, items[i].value);
      match TranslateSpec(t, answer, items[i].value)
      case Err(e) => Outcome(items, [q], Some(e))
      case Ok(x) =>
        var o := Run(t, answer, items[i := Entry(items[i].key, x)], i + 1);
        Outcome(o.items, [q] + o.asked, o.error)
  }

  /** `translate_data` on the entries of a dict. */
  function TranslateAll(t: Translator, answer: Request -> Reply, m: Entries): Outcome
  {
    Run(t, answer, m, 0)
  }

  /** The requests for the values of some entries, in order. */
  function Requests(t: Translator, m: Entries): seq<Request>
  {
    seq(|m|, i requires 0 <= i < |m| => RequestFor(t, m[i].value))
  }

  /** The loop changes values only: every key stays at its position, and the entries before `i` are not touched. */
  lemma {:induction false} RunKeys(t: Translator, answer: Request -> Reply, items: Entries, i: nat)
    ensures |Run(t, answer, items, i).items| == |items|
    ensures forall j :: 0 <= j < |items| ==> Run(t, answer, items, i).items[j].key == items[j].key
    ensures forall j :: 0 <= j < i && j < |items| ==> Run(t, answer, items, i).items[j] == items[j]
    decreases |items| - i
  {
    if i < |items| {
      match TranslateSpec(t, answer, items[i].value)
      case Err(_) =>
      case Ok(x) =>
        RunKeys(t, answer, items[i := Entry(items[i].key, x)], i + 1);
    }
  }

  /** Translating keeps every key, and their order. */
  lemma TranslateAllKeys(t: Translator, answer: Request -> Reply, m: Entries)
    ensures |TranslateAll(t, answer, m).items| == |m|
    ensures Keys(TranslateAll(t, answer, m).items) == Keys(m)
  {
    RunKeys(t, answer, m, 0);
    assert Keys(TranslateAll(t, answer, m).items) == Keys(m);
  }

  lemma {:induction false} RunSuccess(t: Translator, answer: Request -> Reply, items: Entries, i: nat)
    requires i <= |items|
    ensures var o := Run(t, answer, items, i);
      o.error.None? <==> forall j :: i <= j < |items| ==> answer(RequestFor(t, items[j].value)).Translated?
    ensures var o := Run(t, answer, items, i);
      o.error.None? ==>
        && o.asked == Requests(t, items[i..])
        && |o.items| == |items|
        && forall j :: i <= j < |items| ==> o.items[j] == Entry(items[j].key, TranslateSpec(t, answer, items[j].value).value)
    decreases |items| - i
  {
    RunKeys(t, answer, items, i);
    if i < |items| {
      match TranslateSpec(t, answer, items[i].value)
      case Err(_) =>
      case Ok(x) =>
        var next := items[i := Entry(items[i].key, x)];
        RunSuccess(t, answer, next, i + 1);
        RunKeys(t, answer, next, i + 1);
        assert next[i + 1..] == items[i + 1..];
        assert Requests(t, items[i..]) == [RequestFor(t, items[i].value)] + Requests(t, items[i + 1..]);
    }
  }

  /**
   * The loop completes exactly when the provider answers every value; it then asks once
   * per entry, in dict order, and every value becomes the translation of the old one.
   */
  lemma TranslateAllSuccess(t: Translator, answer: Request -> Reply, m: Entries)
    ensures var o := TranslateAll(t, answer, m);
      o.error.None? <==> forall i :: 0 <= i < |m| ==> answer(RequestFor(t, m[i].value)).Translated?
    ensures var o := TranslateAll(t, answer, m);
      o.error.None? ==>
        && o.asked == Requests(t, m)
        && |o.items| == |m|
        && forall i :: 0 <= i < |m| ==> o.items[i] == Entry(m[i].key, TranslateSpec(t, answer, m[i].value).value)
  {
    RunSuccess(t, answer, m, 0);
    assert m[0..] == m;
  }

  lemma {:induction false} RunFailure(t: Translator, answer: Request -> Reply, items: Entries, i: nat, j: nat)
    requires i <= j < |items| && answer(RequestFor(t, items[j].value)).Unavailable?
    requires forall k :: i <= k < j ==> answer(RequestFor(t, items[k].value)).Translated?
    ensures var o := Run(t, answer, items, i);
      && o.error == Some(ServiceUnavailable(items[j].value))
      && o.asked == Requests(t, items[i..j + 1])
      && |o.items| == |items|
      && o.items[j..] == items[j..]
      && forall k :: i <= k < j ==> o.items[k] == Entry(items[k].key, TranslateSpec(t, answer, items[k].value).value)
    decreases j - i
  {
    RunKeys(t, answer, items, i);
    if i < j {
      var x := TranslateSpec(t, answer, items[i].value).value;
      var next := items[i := Entry(items[i].key, x)];
      RunFailure(t, answer, next, i + 1, j);
      RunKeys(t, answer, next, i + 1);
      assert next[i + 1..j + 1] == items[i + 1..j + 1];
      assert next[j..] == items[j..];
      assert Requests(t, items[i..j + 1]) == [RequestFor(t, items[i].value)] + Requests(t, items[i + 1..j + 1]);
    } else {
      assert Requests(t, items[i..j + 1]) == [RequestFor(t, items[i].value)];
    }
  }

  /**
   * The first value the provider cannot translate raises; the values before it are
   * translated, it and the ones after it are unchanged, and the provider was asked for
   * the values up to and including it.
   */
  lemma FirstFailure(t: Translator, answer: Request -> Reply, m: Entries, j: nat)
    requires j < |m| && answer(RequestFor(t, m[j].value)).Unavailable?
    requires forall i :: 0 <= i < j ==> answer(RequestFor(t, m[i].value)).Translated?
    ensures var o := TranslateAll(t, answer, m);
      && o.error == Some(ServiceUnavailable(m[j].value))
      && o.asked == Requests(t, m[..j + 1])
      && |o.items| == |m|
      && o.items[j..] == m[j..]
      && forall i :: 0 <= i < j ==> o.items[i] == Entry(m[i].key, TranslateSpec(t, answer, m[i].value).value)
  {
    RunFailure(t, answer, m, 0, j);
    assert m[0..j + 1] == m[..j + 1];
  }

  /** One turn of the loop of `translate_data`: translate the value of entry `i` and store it under its key. */
  method TranslateEntry(t: Translator, svc: Service, data: PyDict, i: nat) returns (x: Result<string>)
    requires data.Valid() && i < |data.items|
    modifies svc, data
    ensures x == TranslateSpec(t, svc.answer, old(data.items[i].value))
    ensures svc.calls == old(svc.calls) + [RequestFor(t, old(data.items[i].value))]
    ensures data.Valid()
    ensures data.items == if x.Ok? then old(data.items)[i := Entry(old(data.items[i].key), x.value)] else old(data.items)
  {
    var key, text := data.items[i].key, data.items[i].value;
    x := Translate(t, svc, text);
    if x.Ok? {
      PutExisting(data.items, i, x.value);
      data.Set(key, x.value);
    }
  }

  /**
   * `Translator.translate_data`: overwrites each value of `data` in place and returns
   * the same dict; a provider failure propagates, with the values reached so far already
   * overwritten.
   */
  method TranslateData(t: Translator, svc: Service, data: PyDict) returns (r: Result<PyDict>)
    requires data.Valid()
    modifies svc, data
    ensures var o := TranslateAll(t, svc.answer, old(data.items));
      && data.Valid()
      && data.items == o.items
      && svc.calls == old(svc.calls) + o.asked
      && r == (if o.error.None? then Ok(data) else Err(o.error.value))
  {
    var answer := svc.answer;
    ghost var o := TranslateAll(t, answer, data.items);
    var i := 0;
    while i < |data.items|
      invariant data.Valid() && i <= |data.items|
      invariant var rest := Run(t, answer, data.items, i);
        rest.items == o.items && rest.error == o.error && old(svc.calls) + o.asked == svc.calls + rest.asked
      decreases |data.items| - i
    {
      ghost var before, text := svc.calls, data.items[i].value;
      var x := TranslateEntry(t, svc, data, i);
      if x.Err? {
        r := Err(x.error);
        return;
      }
      ghost var rest := Run(t, answer, data.items, i + 1);
      assert before + ([RequestFor(t, text)] + rest.asked) == svc.calls + rest.asked;
      i := i + 1;
    }
    r := Ok(data);
  }
}
