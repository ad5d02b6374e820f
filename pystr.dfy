/**
 * The Python `str` operations the tool relies on, with Python 3's semantics:
 * `isspace`/`strip`, `split` on one character, `sep.join`, `in`, `startswith`,
 * `endswith`, `replace`, `lower`/`upper` and iteration over the lines of a text file.
 */
module PyStr {

  /** `c.isspace()`: exactly the characters that `str.strip()` with no argument removes. */
  predicate IsSpace(c: char)
  {
    || c == ' ' || ('\t' <= c <= '\r') || ('\U{1C}' <= c <= '\U{1F}')
    || c == '\U{85}' || c == '\U{A0}' || c == '\U{1680}' || ('\U{2000}' <= c <= '\U{200A}')
    || c == '\U{2028}' || c == '\U{2029}' || c == '\U{202F}' || c == '\U{205F}' || c == '\U{3000}'
  }

  /** `s.lstrip()`: the longest suffix of `s` that does not start with white space. */
  function TrimStart(s: string): (r: string)
    ensures |r| <= |s|
    ensures forall i :: 0 <= i < |s| - |r| ==> IsSpace(s[i])
    ensures r != [] ==> !IsSpace(r[0])
  {
    if s != [] && IsSpace(s[0]) then TrimStart(s[1..]) else s
  }

  /** What `lstrip` keeps is a suffix of its argument. */
  lemma {:induction false} TrimStartSuffix(s: string)
    ensures TrimStart(s) == s[|s| - |TrimStart(s)|..]
  {
    if s != [] && IsSpace(s[0]) {
      TrimStartSuffix(s[1..]);
    }
  }

  /** `s.rstrip()`: the longest prefix of `s` that does not end with white space. */
  function TrimEnd(s: string): (r: string)
    ensures |r| <= |s|
    ensures forall i :: |r| <= i < |s| ==> IsSpace(s[i])
    ensures r != [] ==> !IsSpace(r[|r| - 1])
  {
    if s != [] && IsSpace(s[|s| - 1]) then TrimEnd(s[..|s| - 1]) else s
  }

  /** What `rstrip` keeps is a prefix of its argument. */
  lemma {:induction false} TrimEndPrefix(s: string)
    ensures TrimEnd(s) == s[..|TrimEnd(s)|]
  {
    if s != [] && IsSpace(s[|s| - 1]) {
      TrimEndPrefix(s[..|s| - 1]);
      assert s[..|s| - 1][..|TrimEnd(s)|] == s[..|TrimEnd(s)|];
    }
  }

  /** `s.strip()`. */
  function Strip(s: string): string
  {
    TrimEnd(TrimStart(s))
  }

  /** Every character of `s` is white space. */
  predicate AllSpace(s: string)
  {
    s == [] || (IsSpace(s[0]) && AllSpace(s[1..]))
  }

  lemma {:induction false} AllSpaceAt(s: string)
    ensures AllSpace(s) <==> forall i :: 0 <= i < |s| ==> IsSpace(s[i])
  {
    if s != [] {
      AllSpaceAt(s[1..]);
      assert forall i :: 1 <= i < |s| ==> s[i] == s[1..][i - 1];
    }
  }

  /** `s.strip()` is empty exactly when every character of `s` is white space. */
  lemma StripEmptyIff(s: string)
    ensures Strip(s) == [] <==> AllSpace(s)
  {
    AllSpaceAt(s);
  }

  /** A text that neither starts nor ends with white space is its own `strip()`. */
  lemma StripNoEdges(s: string)
    requires s != [] ==> !IsSpace(s[0]) && !IsSpace(s[|s| - 1])
    ensures Strip(s) == s
  {
  }

  /** Number of occurrences of the character `c` in `s`. */
  function Count(s: string, c: char): nat
  {
    if s == [] then 0 else (if s[0] == c then 1 else 0) + Count(s[1..], c)
  }

  lemma CountZero(s: string, c: char)
    ensures Count(s, c) == 0 <==> c !in s
  {
    if s != [] {
      CountZero(s[1..], c);
      assert s == [s[0]] + s[1..];
    }
  }

  /** `sep.join(parts)`. */
  function Join(parts: seq<string>, sep: string): string
  {
    if parts == [] then [] else if |parts| == 1 then parts[0] else parts[0] + sep + Join(parts[1..], sep)
  }

  /** `s.split(sep)` for a one-character separator and no maxsplit: one more part than there are separators. */
  function Split(s: string, sep: char): (parts: seq<string>)
    ensures |parts| == Count(s, sep) + 1
    ensures forall i :: 0 <= i < |parts| ==> sep !in parts[i]
  {
    if s == [] then [[]]
    else
      var rest := Split(s[1..], sep);
      if s[0] == sep then [[]] + rest else [[s[0]] + rest[0]] + rest[1..]
  }

  lemma {:induction false} CountAppend(a: string, b: string, c: char)
    ensures Count(a + b, c) == Count(a, c) + Count(b, c)
  {
    if a != [] {
      assert (a + b)[0] == a[0] && (a + b)[1..] == a[1..] + b;
      CountAppend(a[1..], b, c);
    } else {
      assert a + b == b;
    }
  }

  lemma {:induction false} CountTrimStart(s: string, c: char)
    requires !IsSpace(c)
    ensures Count(TrimStart(s), c) == Count(s, c)
  {
    if s != [] && IsSpace(s[0]) {
      CountTrimStart(s[1..], c);
    }
  }

  lemma {:induction false} CountTrimEnd(s: string, c: char)
    requires !IsSpace(c)
    ensures Count(TrimEnd(s), c) == Count(s, c)
  {
    if s != [] && IsSpace(s[|s| - 1]) {
      var n := |s| - 1;
      CountTrimEnd(s[..n], c);
      assert s == s[..n] + [s[n]];
      CountAppend(s[..n], [s[n]], c);
    }
  }

  /** `strip()` removes only white space, so it keeps every other character. */
  lemma CountStrip(s: string, c: char)
    requires !IsSpace(c)
    ensures Count(Strip(s), c) == Count(s, c)
  {
    CountTrimStart(s, c);
    CountTrimEnd(TrimStart(s), c);
  }

  /** Joining the parts of a split with the separator gives back the text. */
  lemma {:induction false} JoinSplit(s: string, sep: char)
    ensures Join(Split(s, sep), [sep]) == s
  {
    if s != [] {
      var rest := Split(s[1..], sep);
      JoinSplit(s[1..], sep);
      if s[0] != sep {
        var parts := Split(s, sep);
        if |rest| == 1 {
          assert parts == [[s[0]] + rest[0]];
        } else {
          assert parts[1..] == rest[1..];
          assert Join(parts, [sep]) == [s[0]] + rest[0] + [sep] + Join(rest[1..], [sep]);
        }
      }
    }
  }

  /** A text without the separator splits into itself alone. */
  lemma {:induction false} SplitNoSep(s: string, sep: char)
    requires sep !in s
    ensures Split(s, sep) == [s]
  {
    if s != [] {
      SplitNoSep(s[1..], sep);
      assert [s[0]] + s[1..] == s;
    }
  }

  /** A text with exactly one separator splits into the text before it and the text after it. */
  lemma {:induction false} SplitPair(a: string, b: string, sep: char)
    requires sep !in a && sep !in b
    ensures Split(a + [sep] + b, sep) == [a, b]
  {
    if a == [] {
      assert a + [sep] + b == [sep] + b;
      SplitNoSep(b, sep);
    } else {
      assert (a + [sep] + b)[0] == a[0] && (a + [sep] + b)[1..] == a[1..] + [sep] + b;
      SplitPair(a[1..], b, sep);
      assert [a[0]] + a[1..] == a;
    }
  }

  /** A text whose first separator follows `a` splits into `a` and the parts of the rest. */
  lemma {:induction false} SplitCons(a: string, b: string, sep: char)
    requires sep !in a
    ensures Split(a + [sep] + b, sep) == [a] + Split(b, sep)
  {
    if a == [] {
      assert a + [sep] + b == [sep] + b;
    } else {
      assert (a + [sep] + b)[0] == a[0] && (a + [sep] + b)[1..] == a[1..] + [sep] + b;
      SplitCons(a[1..], b, sep);
      assert [a[0]] + a[1..] == a;
    }
  }

  /** The first part of a split: the text before the first separator. */
  lemma {:induction false} SplitHead(s: string, sep: char)
    ensures var h := Split(s, sep)[0];
      |h| <= |s| && h == s[..|h|] && sep !in h && (|h| < |s| ==> s[|h|] == sep)
  {
    if s != [] {
      SplitHead(s[1..], sep);
    }
  }

  /** `s.startswith(p)`. */
  predicate StartsWith(s: string, p: string)
  {
    |p| <= |s| && s[..|p|] == p
  }

  /** `s.endswith(p)`. */
  predicate EndsWith(s: string, p: string)
  {
    |p| <= |s| && s[|s| - |p|..] == p
  }

  /** `p in s` for strings: `p` occurs somewhere in `s`. */
  predicate Contains(s: string, p: string)
  {
    exists i | 0 <= i <= |s| - |p| :: OccursAt(s, p, i)
  }

  /** `p` occurs in `s` starting at index `i`. */
  predicate OccursAt(s: string, p: string, i: int)
  {
    0 <= i <= |s| - |p| && s[i..i + |p|] == p
  }

  /** A pattern holding a character the text does not hold does not occur in it. */
  lemma NotContainsChar(s: string, p: string, c: char)
    requires c in p && c !in s
    ensures !Contains(s, p)
  {
    var j :| 0 <= j < |p| && p[j] == c;
    forall i | 0 <= i <= |s| - |p| ensures !OccursAt(s, p, i) {
      assert s[i..i + |p|][j] == s[i + j] != c;
    }
  }

  /**
   * `s.replace(pat, rep)`: every occurrence of `pat` found scanning from the left,
   * without overlaps, becomes `rep`.
   */
  function Replace(s: string, pat: string, rep: string): string
    requires pat != []
  {
    if StartsWith(s, pat) then rep + Replace(s[|pat|..], pat, rep)
    else if s == [] then []
    else [s[0]] + Replace(s[1..], pat, rep)
  }

  /** A text in which the pattern does not occur is left unchanged by `replace`. */
  lemma {:induction false} ReplaceAbsent(s: string, pat: string, rep: string)
    requires pat != [] && !Contains(s, pat)
    ensures Replace(s, pat, rep) == s
  {
    if s != [] {
      assert !OccursAt(s, pat, 0);
      forall i | 0 <= i <= |s| - 1 - |pat| ensures !OccursAt(s[1..], pat, i) {
        assert !OccursAt(s, pat, i + 1);
        assert s[1..][i..i + |pat|] == s[i + 1..i + 1 + |pat|];
      }
      ReplaceAbsent(s[1..], pat, rep);
    }
  }

  /** No proper, non-empty suffix of `p` is also a prefix of `p`: two occurrences cannot overlap. */
  predicate NoSelfOverlap(p: string)
  {
    forall j :: 0 < j < |p| ==> p[j..] != p[..|p| - j]
  }

  /** An occurrence of a non-self-overlapping pattern at the very end of the text is replaced. */
  lemma {:induction false} ReplaceAtEnd(a: string, pat: string, rep: string)
    requires pat != [] && NoSelfOverlap(pat)
    ensures Replace(a + pat, pat, rep) == Replace(a, pat, rep) + rep
  {
    if a == [] {
      assert a + pat == pat && pat[|pat|..] == [];
    } else if StartsWith(a + pat, pat) {
      // an occurrence starting inside `a` cannot overlap the final one, so it lies inside `a`
      if |a| < |pat| {
        NoOverlapWithEnd(a, pat);
        assert false;
      }
      assert StartsWith(a, pat) by { assert a[..|pat|] == (a + pat)[..|pat|]; }
      assert (a + pat)[|pat|..] == a[|pat|..] + pat;
      ReplaceAtEnd(a[|pat|..], pat, rep);
    } else {
      assert (a + pat)[1..] == a[1..] + pat;
      ReplaceAtEnd(a[1..], pat, rep);
    }
  }

  /** An occurrence of a non-self-overlapping pattern cannot start fewer than `|pat|` characters before another. */
  lemma NoOverlapWithEnd(a: string, pat: string)
    requires NoSelfOverlap(pat) && 0 < |a| < |pat|
    ensures !StartsWith(a + pat, pat)
  {
    OverlapShift(a, pat);
    assert pat[|a|..] != pat[..|pat| - |a|];
  }

  /** If the pattern also starts `|a|` characters before its end, it overlaps itself by `|pat| - |a|`. */
  lemma OverlapShift(a: string, pat: string)
    requires |a| < |pat|
    ensures StartsWith(a + pat, pat) ==> pat[|a|..] == pat[..|pat| - |a|]
  {
    if StartsWith(a + pat, pat) {
      forall k | 0 <= k < |pat| - |a| ensures pat[|a|..][k] == pat[..|pat| - |a|][k] {
        assert (a + pat)[..|pat|][|a| + k] == pat[|a| + k];
        assert (a + pat)[|a| + k] == pat[k];
      }
    }
  }

  /** A text starting with a character that begins no occurrence copies that character. */
  lemma ReplaceHead(c: char, s: string, pat: string, rep: string)
    requires pat != [] && pat[0] != c
    ensures Replace([c] + s, pat, rep) == [c] + Replace(s, pat, rep)
  {
    assert ([c] + s)[1..] == s;
  }

  /** Python's `str.lower()` on one character (ASCII and Latin-1 letters). */
  function LowerChar(c: char): char
  {
    if ('A' <= c <= 'Z' || '\U{C0}' <= c <= '\U{DE}') && c != '\U{D7}' then (c as int + 32) as char else c
  }

  /** Python's `str.upper()` on one character (ASCII and Latin-1 letters). */
  function UpperChar(c: char): char
  {
    if ('a' <= c <= 'z' || '\U{E0}' <= c <= '\U{FE}') && c != '\U{F7}' then (c as int - 32) as char else c
  }

  /** `s.lower()`. */
  function Lower(s: string): string
  {
    if s == [] then [] else [LowerChar(s[0])] + Lower(s[1..])
  }

  /** `s.upper()`. */
  function Upper(s: string): string
  {
    if s == [] then [] else [UpperChar(s[0])] + Upper(s[1..])
  }

  /** Case mapping changes letters only and leaves every other character, `_` and `=` among them, alone. */
  lemma {:induction false} CaseMapKeepsChar(s: string, c: char)
    requires !('A' <= c <= 'Z' || 'a' <= c <= 'z' || '\U{C0}' <= c <= '\U{FE}')
    ensures c in Lower(s) <==> c in s
    ensures c in Upper(s) <==> c in s
  {
    if s != [] {
      CaseMapKeepsChar(s[1..], c);
    }
  }

  lemma {:induction false} LowerLength(s: string)
    ensures |Lower(s)| == |s|
  {
    if s != [] { LowerLength(s[1..]); }
  }

  /** Lowering twice is lowering once. */
  lemma {:induction false} LowerIdempotent(s: string)
    ensures Lower(Lower(s)) == Lower(s)
  {
    if s != [] { LowerIdempotent(s[1..]); }
  }

  /** Uppering twice is uppering once. */
  lemma {:induction false} UpperIdempotent(s: string)
    ensures Upper(Upper(s)) == Upper(s)
  {
    if s != [] { UpperIdempotent(s[1..]); }
  }

  /** Lowering forgets any earlier upper-casing. */
  lemma {:induction false} LowerOfUpper(s: string)
    ensures Lower(Upper(s)) == Lower(s)
  {
    if s != [] { LowerOfUpper(s[1..]); }
  }

  /** Lowering distributes over concatenation. */
  lemma {:induction false} LowerAppend(a: string, b: string)
    ensures Lower(a + b) == Lower(a) + Lower(b)
  {
    if a != [] {
      assert (a + b)[0] == a[0] && (a + b)[1..] == a[1..] + b;
      LowerAppend(a[1..], b);
      calc {
        Lower(a + b);
        [LowerChar(a[0])] + Lower(a[1..] + b);
        [LowerChar(a[0])] + (Lower(a[1..]) + Lower(b));
        ([LowerChar(a[0])] + Lower(a[1..])) + Lower(b);
      }
    } else {
      assert a + b == b;
    }
  }

  /** Concatenation is associative (stated on plain sequences, where it is cheap to use). */
  lemma AppendAssoc<T>(x: seq<T>, y: seq<T>, z: seq<T>)
    ensures (x + y) + z == x + (y + z)
  {
  }

  /** Concatenation of a sequence of strings. */
  function Concat(ss: seq<string>): string
  {
    if ss == [] then [] else ss[0] + Concat(ss[1..])
  }

  /**
   * The lines of a text as `f.readlines()` or `for line in f` yields them: each ends with its `\n`,
   * except a last line the text does not terminate.
   */
  function Lines(s: string): seq<string>
  {
    if s == [] then []
    else
      var rest := Lines(s[1..]);
      if s[0] == '\n' then [['\n']] + rest
      else if rest == [] then [[s[0]]]
      else [[s[0]] + rest[0]] + rest[1..]
  }

  /** Reading back lines that each end in their only `\n` gives exactly those lines. */
  lemma {:induction false} LinesOfTerminated(ls: seq<string>)
    requires forall i :: 0 <= i < |ls| ==> ls[i] != [] && ls[i][|ls[i]| - 1] == '\n' && '\n' !in ls[i][..|ls[i]| - 1]
    ensures Lines(Concat(ls)) == ls
  {
    if ls != [] {
      var l := ls[0];
      assert l == l[..|l| - 1] + "\n";
      LinesOfTerminated(ls[1..]);
      LinesOfLine(l[..|l| - 1], Concat(ls[1..]));
    }
  }

  /** A line without `\n` followed by `\n` is the first line of whatever it is followed by. */
  lemma {:induction false} LinesOfLine(x: string, t: string)
    requires '\n' !in x
    ensures Lines(x + "\n" + t) == [x + "\n"] + Lines(t)
  {
    if x == [] {
      assert x + "\n" + t == ['\n'] + t;
    } else {
      assert (x + "\n" + t)[0] == x[0] && (x + "\n" + t)[1..] == x[1..] + "\n" + t;
      LinesOfLine(x[1..], t);
      assert [x[0]] + (x[1..] + "\n") == x + "\n";
    }
  }
}
