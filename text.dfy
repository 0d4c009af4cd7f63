/** Character classes and the text passes of the analyzer: the cleaning expressions
    FOOTNOTE_REGEX, USFM_MARKER_REGEX, NUMBER_REGEX and PUNCTUATION_REGEX written as
    character-level functions, and Python's str.strip(), str.split(), int() and str()
    on the strings they see. The line patterns are in the Parser module. */
module Text {
  import opened Wrappers

  // ---------------------------------------------------------------------------
  // Character classes
  // ---------------------------------------------------------------------------

  /** Python's str.isspace(): the characters str.strip() and str.split() treat as whitespace. */
  predicate IsSpace(c: char) {
    ('\t' <= c <= '\r') || ('\U{1C}' <= c <= ' ') || c == '\U{85}' || c == '\U{A0}'
    || c == '\U{1680}' || ('\U{2000}' <= c <= '\U{200A}') || c == '\U{2028}'
    || c == '\U{2029}' || c == '\U{202F}' || c == '\U{205F}' || c == '\U{3000}'
  }

  predicate NotSpace(c: char) { !IsSpace(c) }

  /** The regular-expression class `\d`, on the ASCII decimal digits. */
  predicate IsDigit(c: char) { '0' <= c <= '9' }

  /** The regular-expression class `\w`, on ASCII letters, digits and the underscore. */
  predicate IsWordChar(c: char) { ('a' <= c <= 'z') || ('A' <= c <= 'Z') || IsDigit(c) || c == '_' }

  /** The character class of PUNCTUATION_REGEX: brackets, `*+?!()`, both quotes, `,.:;` and the em dash. */
  predicate IsPunctuation(c: char) { c in "[]*+?!()\"',.:;\U{2014}" }

  lemma AppendAssociates<T>(a: seq<T>, b: seq<T>, c: seq<T>)
    ensures a + (b + c) == (a + b) + c
  {
  }

  // ---------------------------------------------------------------------------
  // Runs of characters
  // ---------------------------------------------------------------------------

  /** The length of the leading run of characters of s that satisfy p. */
  function SpanLength(s: string, p: char -> bool): (n: nat)
    ensures n <= |s|
    ensures forall i :: 0 <= i < n ==> p(s[i])
    ensures n < |s| ==> !p(s[n])
    decreases |s|
  {
    if s != [] && p(s[0]) then 1 + SpanLength(s[1..], p) else 0
  }

  /** The length of the trailing run of characters of s that satisfy p. */
  function TrailLength(s: string, p: char -> bool): (n: nat)
    ensures n <= |s|
    ensures forall i :: |s| - n <= i < |s| ==> p(s[i])
    ensures n < |s| ==> !p(s[|s| - 1 - n])
    decreases |s|
  {
    if s != [] && p(s[|s| - 1]) then 1 + TrailLength(s[..|s| - 1], p) else 0
  }

  /** re.sub(" ", s) for a pattern `[class]+`: every maximal run of characters
      satisfying p becomes one space (NUMBER_REGEX, PUNCTUATION_REGEX). */
  function ReplaceRuns(s: string, p: char -> bool): (r: string)
    ensures |r| <= |s|
    ensures forall i :: 0 <= i < |r| ==> r[i] == ' ' || (!p(r[i]) && r[i] in s)
    decreases |s|
  {
    if s == [] then []
    else if p(s[0]) then " " + ReplaceRuns(s[SpanLength(s, p)..], p)
    else [s[0]] + ReplaceRuns(s[1..], p)
  }

  /** A string with no character of the class is left exactly as it is. */
  lemma {:induction false} ReplaceRunsIdentity(s: string, p: char -> bool)
    requires forall i :: 0 <= i < |s| ==> !p(s[i])
    ensures ReplaceRuns(s, p) == s
    decreases |s|
  {
    if s != [] {
      ReplaceRunsIdentity(s[1..], p);
    }
  }

  /** Running a replacement pass a second time changes nothing. */
  lemma ReplaceRunsIdempotent(s: string, p: char -> bool)
    requires !p(' ')
    ensures ReplaceRuns(ReplaceRuns(s, p), p) == ReplaceRuns(s, p)
  {
    ReplaceRunsIdentity(ReplaceRuns(s, p), p);
  }

  /** A replacement pass works piecewise across a boundary that no run crosses: when a
      does not end in the class, the runs of a + b are the runs of a and those of b. */
  lemma {:induction false} ReplaceRunsAppend(a: string, b: string, p: char -> bool)
    requires a != [] ==> !p(a[|a| - 1])
    ensures ReplaceRuns(a + b, p) == ReplaceRuns(a, p) + ReplaceRuns(b, p)
    decreases |a|
  {
    if a == [] {
      assert a + b == b;
    } else if p(a[0]) {
      var n := SpanLength(a, p);
      var s := a + b;
      assert SpanLength(s, p) == n && s[n..] == a[n..] + b by {
        assert n < |a|;
        forall i | 0 <= i <= n
          ensures s[i] == a[i]
        {
        }
        SpanLengthUnique(s, p, n);
      }
      ReplaceRunsAppend(a[n..], b, p);
      var x, y := ReplaceRuns(a[n..], p), ReplaceRuns(b, p);
      assert ReplaceRuns(s, p) == " " + (x + y);
      assert ReplaceRuns(a, p) == " " + x;
      AppendAssociates(" ", x, y);
    } else {
      assert (a + b)[0] == a[0] && (a + b)[1..] == a[1..] + b;
      ReplaceRunsAppend(a[1..], b, p);
      var x, y := ReplaceRuns(a[1..], p), ReplaceRuns(b, p);
      assert ReplaceRuns(a + b, p) == [a[0]] + (x + y);
      AppendAssociates([a[0]], x, y);
    }
  }

  /** A run of the class in front of text that does not start with the class becomes
      one space. */
  lemma ReplaceRunsLeadingRun(d: string, y: string, p: char -> bool)
    requires d != [] && forall i :: 0 <= i < |d| ==> p(d[i])
    requires y != [] && !p(y[0])
    ensures ReplaceRuns(d + y, p) == " " + ReplaceRuns(y, p)
  {
    var s := d + y;
    assert forall i :: 0 <= i < |d| ==> s[i] == d[i];
    assert s[|d|] == y[0];
    SpanLengthUnique(s, p, |d|);
    assert s[|d|..] == y;
  }

  /** Text that is one run of the class, such as a run at the very end of a line,
      becomes one space. */
  lemma ReplaceRunsWholeRun(d: string, p: char -> bool)
    requires d != [] && forall i :: 0 <= i < |d| ==> p(d[i])
    ensures ReplaceRuns(d, p) == " "
  {
    SpanLengthUnique(d, p, |d|);
    assert d[|d|..] == [];
  }

  /** A leading space outside the class is copied through. */
  lemma ReplaceRunsSpaceFront(x: string, p: char -> bool)
    requires !p(' ')
    ensures ReplaceRuns(" " + x, p) == " " + ReplaceRuns(x, p)
  {
    assert (" " + x)[1..] == x;
  }

  /** NUMBER_REGEX.sub(" ", s). */
  function RemoveNumbers(s: string): (r: string)
    ensures forall i :: 0 <= i < |r| ==> !IsDigit(r[i]) && (r[i] == ' ' || r[i] in s)
  {
    ReplaceRuns(s, IsDigit)
  }

  /** PUNCTUATION_REGEX.sub(" ", s). */
  function RemovePunctuation(s: string): (r: string)
    ensures forall i :: 0 <= i < |r| ==> !IsPunctuation(r[i]) && (r[i] == ' ' || r[i] in s)
  {
    ReplaceRuns(s, IsPunctuation)
  }

  // ---------------------------------------------------------------------------
  // USFM markers
  // ---------------------------------------------------------------------------

  /** USFM_MARKER_REGEX.sub(" ", s): a backslash followed by the longest run of word
      characters becomes one space; the optional `(\d+)?` tail always matches empty,
      because `\w+` has already taken every digit. */
  function RemoveMarkers(s: string): (r: string)
    ensures |r| <= |s|
    ensures forall i :: 0 <= i < |r| ==> r[i] == ' ' || r[i] in s
    ensures r != [] ==> s != [] && (r[0] == ' ' || r[0] == s[0])
    decreases |s|
  {
    if s == [] then []
    else if |s| >= 2 && s[0] == '\\' && IsWordChar(s[1]) then " " + RemoveMarkers(s[1 + SpanLength(s[1..], IsWordChar)..])
    else [s[0]] + RemoveMarkers(s[1..])
  }

  /** Text without a backslash holds no marker and passes unchanged. */
  lemma {:induction false} RemoveMarkersNoBackslash(s: string)
    requires '\\' !in s
    ensures RemoveMarkers(s) == s
    decreases |s|
  {
    if s != [] {
      assert '\\' !in s[1..];
      RemoveMarkersNoBackslash(s[1..]);
    }
  }

  /** A run of the class in t stops where it did when what follows t does not start
      with the class. */
  lemma SpanLengthAppend(t: string, b: string, p: char -> bool)
    requires b != [] ==> !p(b[0])
    ensures SpanLength(t + b, p) == SpanLength(t, p)
  {
    var n, u := SpanLength(t, p), t + b;
    forall i | 0 <= i < n
      ensures p(u[i])
    {
      assert u[i] == t[i];
    }
    if n < |u| {
      assert u[n] == if n < |t| then t[n] else b[0];
    }
    SpanLengthUnique(u, p, n);
  }

  /** The pass works piecewise across a boundary that no marker crosses: when b does not
      start with a word character, a marker of a ends inside a. */
  lemma {:induction false} RemoveMarkersAppend(a: string, b: string)
    requires b != [] ==> !IsWordChar(b[0])
    ensures RemoveMarkers(a + b) == RemoveMarkers(a) + RemoveMarkers(b)
    decreases |a|
  {
    var y := RemoveMarkers(b);
    if a == [] {
      assert a + b == b;
    } else if |a| >= 2 && a[0] == '\\' && IsWordChar(a[1]) {
      var rest := a[1 + SpanLength(a[1..], IsWordChar)..];
      var x := RemoveMarkers(rest);
      assert RemoveMarkers(a) == " " + x;
      MarkerInFront(a, b);
      RemoveMarkersAppend(rest, b);
      assert RemoveMarkers(a + b) == " " + (x + y);
      AppendAssociates(" ", x, y);
    } else {
      var x := RemoveMarkers(a[1..]);
      assert RemoveMarkers(a) == [a[0]] + x;
      PlainInFront(a, b);
      RemoveMarkersAppend(a[1..], b);
      assert RemoveMarkers(a + b) == [a[0]] + (x + y);
      AppendAssociates([a[0]], x, y);
    }
  }

  /** A marker at the front of a, which ends inside a, is replaced as in a alone. */
  lemma MarkerInFront(a: string, b: string)
    requires |a| >= 2 && a[0] == '\\' && IsWordChar(a[1])
    requires b != [] ==> !IsWordChar(b[0])
    ensures var n := SpanLength(a[1..], IsWordChar);
      RemoveMarkers(a + b) == " " + RemoveMarkers(a[1 + n..] + b)
  {
    var s, n := a + b, SpanLength(a[1..], IsWordChar);
    assert s[1..] == a[1..] + b;
    SpanLengthAppend(a[1..], b, IsWordChar);
    assert s[1 + n..] == a[1 + n..] + b;
  }

  /** A character at the front of a that starts no marker of a starts none of a + b. */
  lemma PlainInFront(a: string, b: string)
    requires a != [] && !(|a| >= 2 && a[0] == '\\' && IsWordChar(a[1]))
    requires b != [] ==> !IsWordChar(b[0])
    ensures RemoveMarkers(a + b) == [a[0]] + RemoveMarkers(a[1..] + b)
  {
    var s := a + b;
    assert s[0] == a[0] && s[1..] == a[1..] + b;
    assert !(|s| >= 2 && s[0] == '\\' && IsWordChar(s[1])) by {
      if |s| >= 2 {
        assert s[1] == if |a| >= 2 then a[1] else b[0];
      }
    }
  }

  /** An inline marker such as `\w` or `\add` becomes one space, and the text on either
      side of it is cleaned as if the marker were not there. */
  lemma RemoveMarkersInline(a: string, w: string, b: string)
    requires w != [] && forall i :: 0 <= i < |w| ==> IsWordChar(w[i])
    requires b != [] ==> !IsWordChar(b[0])
    ensures RemoveMarkers(a + "\\" + w + b) == RemoveMarkers(a) + " " + RemoveMarkers(b)
  {
    var m := "\\" + w + b;
    assert RemoveMarkers(m) == " " + RemoveMarkers(b) by {
      assert m[0] == '\\' && m[1] == w[0];
      assert m[1..] == w + b;
      assert SpanLength(w + b, IsWordChar) == |w| by {
        SpanLengthAppend(w, b, IsWordChar);
        SpanLengthUnique(w, IsWordChar, |w|);
      }
      assert m[1 + |w|..] == b;
    }
    assert a + "\\" + w + b == a + m by {
      AppendAssociates(a, "\\", w);
      AppendAssociates(a, "\\" + w, b);
    }
    RemoveMarkersAppend(a, m);
    AppendAssociates(RemoveMarkers(a), " ", RemoveMarkers(b));
  }

  /** No backslash in s is followed by a word character. */
  predicate NoMarkers(s: string) {
    forall i :: 0 <= i < |s| - 1 && s[i] == '\\' ==> !IsWordChar(s[i + 1])
  }

  lemma {:induction false} RemoveMarkersComplete(s: string)
    ensures NoMarkers(RemoveMarkers(s))
    decreases |s|
  {
    if s == [] {
    } else if |s| >= 2 && s[0] == '\\' && IsWordChar(s[1]) {
      var t := s[1 + SpanLength(s[1..], IsWordChar)..];
      RemoveMarkersComplete(t);
      var r := RemoveMarkers(s);
      assert r == " " + RemoveMarkers(t);
      forall i | 0 <= i < |r| - 1 && r[i] == '\\' ensures !IsWordChar(r[i + 1]) {
        assert r[i] == RemoveMarkers(t)[i - 1];
      }
    } else {
      RemoveMarkersComplete(s[1..]);
      var r := RemoveMarkers(s);
      assert r == [s[0]] + RemoveMarkers(s[1..]);
      forall i | 0 <= i < |r| - 1 && r[i] == '\\' ensures !IsWordChar(r[i + 1]) {
        if i > 0 {
          assert r[i] == RemoveMarkers(s[1..])[i - 1];
        }
      }
    }
  }

  // ---------------------------------------------------------------------------
  // Footnotes
  // ---------------------------------------------------------------------------

  /** A footnote close `\f*` starts at offset j of s. */
  predicate CloseAt(s: string, j: nat) {
    j + 3 <= |s| && s[j] == '\\' && s[j + 1] == 'f' && s[j + 2] == '*'
  }

  /** Where the `\f*` closing a footnote whose text starts at offset k lies: the first
      one at or after k, provided no newline comes before it (the lazy `.*?` of
      FOOTNOTE_REGEX, whose `.` does not match a newline). */
  function FindClose(s: string, k: nat): (r: Option<nat>)
    ensures r.Some? ==> k <= r.value && r.value + 3 <= |s|
    decreases |s| - k
  {
    if k + 3 > |s| then None
    else if CloseAt(s, k) then Some(k)
    else if s[k] == '\n' then None
    else FindClose(s, k + 1)
  }

  /** FindClose finds the first close at or after k, and finds none exactly when every
      close at or after k has a newline before it. */
  lemma {:induction false} FindCloseIsFirstClose(s: string, k: nat)
    ensures FindClose(s, k).Some? ==> CloseAt(s, FindClose(s, k).value)
    ensures FindClose(s, k).Some? ==> forall i :: k <= i < FindClose(s, k).value ==> s[i] != '\n' && !CloseAt(s, i)
    ensures FindClose(s, k).None? ==> forall j :: k <= j && CloseAt(s, j) ==> exists i :: k <= i < j && s[i] == '\n'
    decreases |s| - k
  {
    if k + 3 <= |s| && !CloseAt(s, k) && s[k] != '\n' {
      FindCloseIsFirstClose(s, k + 1);
    }
  }

  /** FOOTNOTE_REGEX.sub(" ", s): scanning left to right, every `\f` that has a closing
      `\f*` on the same line is replaced, with everything up to that close, by one space. */
  function RemoveFootnotes(s: string): (r: string)
    ensures r != [] ==> s != [] && (r[0] == ' ' || r[0] == s[0])
    decreases |s|
  {
    if |s| >= 2 && s[0] == '\\' && s[1] == 'f' && FindClose(s, 2).Some? then
      " " + RemoveFootnotes(s[FindClose(s, 2).value + 3..])
    else if s == [] then []
    else [s[0]] + RemoveFootnotes(s[1..])
  }

  /** Text without a backslash holds no footnote and passes unchanged. */
  lemma {:induction false} RemoveFootnotesNoBackslash(s: string)
    requires '\\' !in s
    ensures RemoveFootnotes(s) == s
    decreases |s|
  {
    if s != [] {
      assert '\\' !in s[1..];
      RemoveFootnotesNoBackslash(s[1..]);
    }
  }

  /** A footnote that FOOTNOTE_REGEX would match starts at offset p of s. */
  predicate FootnoteAt(s: string, p: nat) {
    p + 2 <= |s| && s[p] == '\\' && s[p + 1] == 'f' && FindClose(s, p + 2).Some?
  }

  predicate NoFootnotes(s: string) {
    forall p :: 0 <= p < |s| ==> !FootnoteAt(s, p)
  }

  /** Searching for a close in x + s past x is searching s. */
  lemma {:induction false} FindCloseShift(x: string, s: string, k: nat)
    ensures FindClose(x + s, |x| + k) == (if FindClose(s, k).Some? then Some(|x| + FindClose(s, k).value) else None)
    decreases |s| - k
  {
    var xs := x + s;
    if k + 3 <= |s| {
      assert xs[|x| + k] == s[k] && xs[|x| + k + 1] == s[k + 1] && xs[|x| + k + 2] == s[k + 2];
      FindCloseShift(x, s, k + 1);
    }
  }

  lemma FootnoteAtShift(x: string, s: string, p: nat)
    ensures FootnoteAt(x + s, |x| + p) == FootnoteAt(s, p)
  {
    FindCloseShift(x, s, p + 2);
    if p + 2 <= |s| {
      assert (x + s)[|x| + p] == s[p] && (x + s)[|x| + p + 1] == s[p + 1];
    }
  }

  /** Removing footnotes never creates a close that was not reachable in the input. */
  lemma {:induction false} CloseSurvives(u: string)
    requires FindClose(RemoveFootnotes(u), 0).Some?
    ensures FindClose(u, 0).Some?
    decreases |u|
  {
    var out := RemoveFootnotes(u);
    if |u| >= 2 && u[0] == '\\' && u[1] == 'f' && FindClose(u, 2).Some? {
      assert FindClose(u, 1) == FindClose(u, 2);
    } else if u == [] {
    } else {
      var rest := RemoveFootnotes(u[1..]);
      assert out == [u[0]] + rest;
      var j := FindClose(out, 0).value;
      if j == 0 {
        CloseAtFrontSurvives(u);
      } else {
        assert out[0] != '\n';
        assert FindClose(out, 0) == FindClose(out, 1);
        FindCloseShift([u[0]], rest, 0);
        CloseSurvives(u[1..]);
        FindCloseShift([u[0]], u[1..], 0);
        assert [u[0]] + u[1..] == u;
      }
    }
  }

  /** A close at the very front of the output, where no footnote was removed, was a
      close of the input too. */
  lemma CloseAtFrontSurvives(u: string)
    requires u != [] && !(|u| >= 2 && u[0] == '\\' && u[1] == 'f' && FindClose(u, 2).Some?)
    requires CloseAt(RemoveFootnotes(u), 0)
    ensures FindClose(u, 0) == Some(0)
  {
    var v := u[1..];
    var rest := RemoveFootnotes(v);
    assert RemoveFootnotes(u) == [u[0]] + rest;
    assert v != [] && v[0] == u[1] == 'f';
    var w := v[1..];
    assert rest == [v[0]] + RemoveFootnotes(w);
    assert w != [] && w[0] == u[2] == '*';
  }

  /** After FOOTNOTE_REGEX.sub no footnote span is left: the pattern would match nothing. */
  lemma {:induction false} RemoveFootnotesComplete(s: string)
    ensures NoFootnotes(RemoveFootnotes(s))
    decreases |s|
  {
    var r := RemoveFootnotes(s);
    if |s| >= 2 && s[0] == '\\' && s[1] == 'f' && FindClose(s, 2).Some? {
      var t := s[FindClose(s, 2).value + 3..];
      RemoveFootnotesComplete(t);
      assert r == [' '] + RemoveFootnotes(t);
      NoFootnotesPastFirst(' ', RemoveFootnotes(t));
    } else if s != [] {
      var rest := RemoveFootnotes(s[1..]);
      RemoveFootnotesComplete(s[1..]);
      assert r == [s[0]] + rest;
      NoFootnotesPastFirst(s[0], rest);
      if s[0] == '\\' && |s| >= 2 && s[1] == 'f' {
        OpenerWithoutClose(s);
      } else {
        assert rest != [] ==> rest[0] == ' ' || rest[0] == s[1];
        assert !FootnoteAt(r, 0);
      }
    }
  }

  lemma NoFootnotesPastFirst(c: char, t: string)
    requires NoFootnotes(t)
    ensures forall p :: 1 <= p <= |t| ==> !FootnoteAt([c] + t, p)
  {
    forall p | 1 <= p <= |t| ensures !FootnoteAt([c] + t, p) {
      FootnoteAtShift([c], t, p - 1);
    }
  }

  /** Where no footnote starts at the front, the first character is copied through. */
  lemma FrontCopied(s: string)
    requires s != [] && !(|s| >= 2 && s[0] == '\\' && s[1] == 'f' && FindClose(s, 2).Some?)
    ensures RemoveFootnotes(s) == [s[0]] + RemoveFootnotes(s[1..])
  {
  }

  /** An opener `\f` with no reachable close is copied through as it is. */
  lemma UnclosedOpenerKept(s: string)
    requires |s| >= 2 && s[0] == '\\' && s[1] == 'f' && FindClose(s, 2).None?
    ensures RemoveFootnotes(s) == s[..2] + RemoveFootnotes(s[2..])
  {
    var v, u := s[1..], s[2..];
    var x := RemoveFootnotes(u);
    assert RemoveFootnotes(s) == [s[0]] + ([s[1]] + x) by {
      FrontCopied(s);
      FrontCopied(v);
      assert v[1..] == u;
    }
    TwoInFront(s, x);
  }

  lemma TwoInFront(s: string, x: string)
    requires |s| >= 2
    ensures [s[0]] + ([s[1]] + x) == s[..2] + x
  {
    assert s[..2] == [s[0], s[1]];
  }

  /** An opener `\f` with no reachable close is kept, and still has no close afterwards. */
  lemma OpenerWithoutClose(s: string)
    requires |s| >= 2 && s[0] == '\\' && s[1] == 'f' && FindClose(s, 2).None?
    ensures !FootnoteAt(RemoveFootnotes(s), 0)
  {
    var pre, u := s[..2], s[2..];
    assert s == pre + u;
    FindCloseShift(pre, u, 0);
    UnclosedOpenerKept(s);
    FindCloseShift(pre, RemoveFootnotes(u), 0);
    if FindClose(RemoveFootnotes(u), 0).Some? {
      CloseSurvives(u);
    }
  }

  // ---------------------------------------------------------------------------
  // str.strip() and str.split()
  // ---------------------------------------------------------------------------

  /** s without its leading and trailing characters of the class p. */
  function StripBy(s: string, p: char -> bool): string {
    TrimEnd(TrimStart(s, p), p)
  }

  /** str.strip(): s without its leading and trailing whitespace. */
  function Strip(s: string): string {
    StripBy(s, IsSpace)
  }

  /** s without its leading characters of the class p. */
  function TrimStart(s: string, p: char -> bool): string
    decreases |s|
  {
    if s != [] && p(s[0]) then TrimStart(s[1..], p) else s
  }

  /** s without its trailing characters of the class p. */
  function TrimEnd(s: string, p: char -> bool): string
    decreases |s|
  {
    if s != [] && p(s[|s| - 1]) then TrimEnd(s[..|s| - 1], p) else s
  }

  lemma {:induction false} TrimStartSpan(s: string, p: char -> bool)
    ensures TrimStart(s, p) == s[SpanLength(s, p)..]
    decreases |s|
  {
    if s != [] && p(s[0]) {
      TrimStartSpan(s[1..], p);
      assert s[1..][SpanLength(s[1..], p)..] == s[1 + SpanLength(s[1..], p)..];
    }
  }

  lemma {:induction false} TrimEndTrail(s: string, p: char -> bool)
    ensures TrimEnd(s, p) == s[..|s| - TrailLength(s, p)]
    decreases |s|
  {
    if s != [] && p(s[|s| - 1]) {
      TrimEndTrail(s[..|s| - 1], p);
      var n := TrailLength(s[..|s| - 1], p);
      assert s[..|s| - 1][..|s| - 1 - n] == s[..|s| - 1 - n];
    }
  }

  /** Stripping the class p returns the slice of s that starts after the leading run of
      p, and only characters of p follow that slice. */
  lemma StripIsSlice(s: string, p: char -> bool)
    ensures var a, r := SpanLength(s, p), StripBy(s, p);
      && a + |r| <= |s|
      && r == s[a..a + |r|]
      && (forall i :: a + |r| <= i < |s| ==> p(s[i]))
  {
    var a := SpanLength(s, p);
    var t := s[a..];
    var b := TrailLength(t, p);
    var r := t[..|t| - b];
    assert StripBy(s, p) == r by {
      TrimStartSpan(s, p);
      TrimEndTrail(t, p);
    }
    SuffixOfSlice(s, a, b, p);
  }

  /** A slice of s[a..] that drops a suffix where p holds: what is left is a slice of s,
      and p holds past it. */
  lemma SuffixOfSlice(s: string, a: nat, b: nat, p: char -> bool)
    requires a <= |s| && b <= |s| - a
    requires forall j :: |s[a..]| - b <= j < |s[a..]| ==> p(s[a..][j])
    ensures s[a..][..|s| - a - b] == s[a..|s| - b]
    ensures forall i :: |s| - b <= i < |s| ==> p(s[i])
  {
    var t := s[a..];
    forall i | |s| - b <= i < |s|
      ensures p(s[i])
    {
      assert s[i] == t[i - a];
    }
  }

  /** What stripping p returns neither starts nor ends with a character of p. */
  lemma StripEnds(s: string, p: char -> bool)
    ensures var r := StripBy(s, p); r != [] ==> !p(r[0]) && !p(r[|r| - 1])
  {
    var a := SpanLength(s, p);
    var t := s[a..];
    TrimStartSpan(s, p);
    TrimEndTrail(t, p);
    var b := TrailLength(t, p);
    var r := t[..|t| - b];
    if r != [] {
      assert r[0] == s[a];
      assert r[|r| - 1] == t[|t| - 1 - b];
    }
  }

  /** Stripping removes the longest prefix and the longest suffix of characters of p and
      nothing else: what it returns is a slice of s, starts and ends outside p, and only
      characters of p follow it. With p = IsSpace this is str.strip(). */
  lemma StripSpec(s: string, p: char -> bool)
    ensures var r := StripBy(s, p);
      && SpanLength(s, p) + |r| <= |s|
      && r == s[SpanLength(s, p)..SpanLength(s, p) + |r|]
      && (forall i :: SpanLength(s, p) + |r| <= i < |s| ==> p(s[i]))
      && (r != [] ==> !p(r[0]) && !p(r[|r| - 1]))
      && (forall i :: 0 <= i < |r| ==> r[i] in s)
  {
    StripIsSlice(s, p);
    StripEnds(s, p);
    var a, r := SpanLength(s, p), StripBy(s, p);
    forall i | 0 <= i < |r|
      ensures r[i] in s
    {
      assert r[i] == s[a + i];
    }
  }

  /** A string that neither starts nor ends with a character of p is left as it is. */
  lemma StripUnchanged(s: string, p: char -> bool)
    requires s != [] ==> !p(s[0]) && !p(s[|s| - 1])
    ensures StripBy(s, p) == s
  {
  }

  /** str.split() with no argument: the maximal runs of non-whitespace characters, in order. */
  function Split(s: string): seq<string>
    decreases |s|
  {
    if s == [] then []
    else if IsSpace(s[0]) then Split(s[1..])
    else
      var n := SpanLength(s, NotSpace);
      [s[..n]] + Split(s[n..])
  }

  /** Every word split() returns is a non-empty run of non-whitespace characters, each
      one with any property p that every non-whitespace character of s has. */
  lemma {:induction false} SplitWords(s: string, p: char -> bool)
    requires forall i :: 0 <= i < |s| ==> IsSpace(s[i]) || p(s[i])
    ensures forall k :: 0 <= k < |Split(s)| ==> Split(s)[k] != []
    ensures forall k, i :: 0 <= k < |Split(s)| && 0 <= i < |Split(s)[k]| ==> NotSpace(Split(s)[k][i]) && p(Split(s)[k][i])
    decreases |s|
  {
    if s != [] {
      var m := if IsSpace(s[0]) then 1 else SpanLength(s, NotSpace);
      var rest := s[m..];
      forall i | 0 <= i < |rest|
        ensures IsSpace(rest[i]) || p(rest[i])
      {
        assert rest[i] == s[m + i];
      }
      SplitWords(rest, p);
      var words, later := Split(s), Split(rest);
      if IsSpace(s[0]) {
        assert words == later;
      } else {
        assert words == [s[..m]] + later;
        forall k | 0 <= k < |words|
          ensures words[k] != []
        {
          if k > 0 {
            assert words[k] == later[k - 1];
          }
        }
        forall k, i | 0 <= k < |words| && 0 <= i < |words[k]|
          ensures NotSpace(words[k][i]) && p(words[k][i])
        {
          if k == 0 {
            assert words[k][i] == s[i];
          } else {
            assert words[k] == later[k - 1];
          }
        }
      }
    }
  }

  /** SpanLength is the only length with its two defining properties. */
  lemma SpanLengthUnique(s: string, p: char -> bool, n: nat)
    requires n <= |s| && (forall i :: 0 <= i < n ==> p(s[i])) && (n < |s| ==> !p(s[n]))
    ensures SpanLength(s, p) == n
  {
  }

  /** A non-empty string without whitespace is one word. */
  lemma SplitWord(w: string)
    requires w != [] && forall i :: 0 <= i < |w| ==> NotSpace(w[i])
    ensures Split(w) == [w]
  {
    SpanLengthUnique(w, NotSpace, |w|);
    assert w[..|w|] == w;
  }

  /** Whitespace alone holds no word. */
  lemma {:induction false} SplitAllSpace(s: string)
    requires forall i :: 0 <= i < |s| ==> IsSpace(s[i])
    ensures Split(s) == []
    decreases |s|
  {
    if s != [] {
      assert forall i :: 0 <= i < |s[1..]| ==> s[1..][i] == s[i + 1];
      SplitAllSpace(s[1..]);
    }
  }

  /** A whitespace character separates: the words of a + [c] + b are the words of a
      followed by the words of b. With SplitWord and SplitAllSpace this fixes Split on
      every string. */
  lemma {:induction false} SplitAtSpace(a: string, c: char, b: string)
    requires IsSpace(c)
    ensures Split(a + [c] + b) == Split(a) + Split(b)
    decreases |a|
  {
    var s := a + [c] + b;
    if a == [] {
      assert s[1..] == b;
    } else if IsSpace(a[0]) {
      assert s[1..] == a[1..] + [c] + b;
      SplitAtSpace(a[1..], c, b);
    } else {
      var m := SpanLength(a, NotSpace);
      assert SpanLength(s, NotSpace) == m by {
        forall i | 0 <= i < m
          ensures NotSpace(s[i])
        {
          assert s[i] == a[i];
        }
        assert m < |s| && !NotSpace(s[m]) by {
          if m < |a| {
            assert s[m] == a[m];
          } else {
            assert s[m] == c;
          }
        }
        SpanLengthUnique(s, NotSpace, m);
      }
      assert s[..m] == a[..m];
      assert s[m..] == a[m..] + [c] + b;
      if m == |a| {
        assert a[m..] == [] && a[..m] == a;
        assert (a[m..] + [c] + b)[1..] == b;
        assert Split(a) == [a];
      } else {
        SplitAtSpace(a[m..], c, b);
        AppendAssociates([a[..m]], Split(a[m..]), Split(b));
      }
    }
  }

  /** Leading whitespace adds no word. */
  lemma {:induction false} SplitSpacePrefix(x: string, y: string)
    requires forall i :: 0 <= i < |x| ==> IsSpace(x[i])
    ensures Split(x + y) == Split(y)
    decreases |x|
  {
    if x == [] {
      assert x + y == y;
    } else {
      assert (x + y)[0] == x[0] && (x + y)[1..] == x[1..] + y;
      assert forall i :: 0 <= i < |x[1..]| ==> x[1..][i] == x[i + 1];
      SplitSpacePrefix(x[1..], y);
    }
  }

  /** A leading space adds no word. */
  lemma SplitSpaceFront(x: string)
    ensures Split(" " + x) == Split(x)
  {
    assert (" " + x)[1..] == x;
  }

  /** Trailing whitespace adds no word. */
  lemma SplitSpaceSuffix(y: string, z: string)
    requires forall i :: 0 <= i < |z| ==> IsSpace(z[i])
    ensures Split(y + z) == Split(y)
  {
    if z == [] {
      assert y + z == y;
    } else {
      assert y + z == y + [z[0]] + z[1..];
      SplitAtSpace(y, z[0], z[1..]);
      assert forall i :: 0 <= i < |z[1..]| ==> z[1..][i] == z[i + 1];
      SplitAllSpace(z[1..]);
    }
  }

  /** Stripping first changes nothing about the words: line.strip().split() == line.split(). */
  lemma SplitIgnoresStrip(s: string)
    ensures Split(Strip(s)) == Split(s)
  {
    StripIsSlice(s, IsSpace);
    var a, r := SpanLength(s, IsSpace), Strip(s);
    var x, z := s[..a], s[a + |r|..];
    assert s == x + (r + z) by {
      assert r == s[a..a + |r|];
    }
    assert Split(x + (r + z)) == Split(r + z) by {
      assert forall i :: 0 <= i < |x| ==> x[i] == s[i];
      SplitSpacePrefix(x, r + z);
    }
    assert Split(r + z) == Split(r) by {
      assert forall i :: 0 <= i < |z| ==> z[i] == s[a + |r| + i];
      SplitSpaceSuffix(r, z);
    }
  }

  /** " ".join(ws). */
  function JoinWords(ws: seq<string>): string
    decreases |ws|
  {
    if ws == [] then []
    else if |ws| == 1 then ws[0]
    else JoinWords(ws[..|ws| - 1]) + " " + ws[|ws| - 1]
  }

  /** split() undoes " ".join() on words that are non-empty and hold no whitespace. */
  lemma {:induction false} SplitJoinWords(ws: seq<string>)
    requires forall k :: 0 <= k < |ws| ==> ws[k] != [] && forall i :: 0 <= i < |ws[k]| ==> NotSpace(ws[k][i])
    ensures Split(JoinWords(ws)) == ws
    decreases |ws|
  {
    if |ws| == 1 {
      SplitWord(ws[0]);
    } else if |ws| > 1 {
      var init, last := ws[..|ws| - 1], ws[|ws| - 1];
      SplitJoinWords(init);
      SplitWord(last);
      SplitAtSpace(JoinWords(init), ' ', last);
    }
  }

  // ---------------------------------------------------------------------------
  // int() and str() on decimal integers
  // ---------------------------------------------------------------------------

  function DigitValue(c: char): nat
    requires IsDigit(c)
  {
    c as int - '0' as int
  }

  function DigitChar(d: nat): (c: char)
    requires d < 10
    ensures IsDigit(c) && DigitValue(c) == d
  {
    ('0' as int + d) as char
  }

  /** The literal form int() accepts after its sign: decimal digits, with single
      underscores allowed between two digits. */
  predicate IsDigitGroups(t: string) {
    && |t| > 0 && IsDigit(t[0]) && IsDigit(t[|t| - 1])
    && (forall i :: 0 <= i < |t| ==> IsDigit(t[i]) || t[i] == '_')
    && (forall i, j :: 0 <= i < |t| && 0 <= j < |t| && j == i + 1 ==> IsDigit(t[i]) || IsDigit(t[j]))
  }

  /** A non-empty run of digits is a valid literal. */
  lemma DigitsAreGroups(d: string)
    requires d != [] && forall i :: 0 <= i < |d| ==> IsDigit(d[i])
    ensures IsDigitGroups(d)
  {
  }

  /** The number the digits of t spell, underscores ignored. */
  function DigitsValue(t: string): nat
    decreases |t|
  {
    if t == [] then 0
    else if IsDigit(t[|t| - 1]) then 10 * DigitsValue(t[..|t| - 1]) + DigitValue(t[|t| - 1])
    else DigitsValue(t[..|t| - 1])
  }

  /** The whitespace int() skips around its literal. CPython first turns every non-ASCII
      isspace() character into a space and then skips only the ASCII space and \t\n\v\f\r,
      so the separators U+001C..U+001F, which isspace() and strip() accept, stay in place
      and make int() raise. */
  predicate IsIntSpace(c: char) {
    IsSpace(c) && !('\U{1C}' <= c <= '\U{1F}')
  }

  /** sys.int_info.default_max_str_digits: int() raises ValueError on a decimal literal
      with more digits than this. */
  const MaxStrDigits: nat := 4300

  /** The number of digits in t; underscores do not count. */
  function DigitCount(t: string): nat
    decreases |t|
  {
    if t == [] then 0
    else DigitCount(t[..|t| - 1]) + if IsDigit(t[|t| - 1]) then 1 else 0
  }

  /** A run of digits counts every character. */
  lemma {:induction false} DigitCountOfDigits(d: string)
    requires forall i :: 0 <= i < |d| ==> IsDigit(d[i])
    ensures DigitCount(d) == |d|
    decreases |d|
  {
    if d != [] {
      DigitCountOfDigits(d[..|d| - 1]);
    }
  }

  /** A literal int() accepts: valid digit groups, and no more digits than the limit. */
  predicate IsLiteral(t: string) {
    IsDigitGroups(t) && DigitCount(t) <= MaxStrDigits
  }

  /** int(s) for a str s: None where Python raises ValueError. */
  function ParseInt(s: string): Option<int> {
    var t := StripBy(s, IsIntSpace);
    if t != [] && (t[0] == '+' || t[0] == '-') then
      var v: int := DigitsValue(t[1..]);
      if IsLiteral(t[1..]) then Some(if t[0] == '-' then -v else v)
      else None
    else if IsLiteral(t) then Some(DigitsValue(t))
    else None
  }

  /** A run of digits, such as the one VERSE_REGEX captures, converts to its value when
      it has at most MaxStrDigits digits, and int() raises on it otherwise. */
  lemma DigitsParse(d: string)
    requires d != [] && forall i :: 0 <= i < |d| ==> IsDigit(d[i])
    ensures ParseInt(d) == if |d| <= MaxStrDigits then Some(DigitsValue(d)) else None
  {
    StripUnchanged(d, IsIntSpace);
    assert d[0] != '+' && d[0] != '-';
    DigitsAreGroups(d);
    DigitCountOfDigits(d);
  }

  /** Text without any digit never converts: int() raises on it. */
  lemma NoDigitsFail(s: string)
    requires forall i :: 0 <= i < |s| ==> !IsDigit(s[i])
    ensures ParseInt(s) == None
  {
    var t := StripBy(s, IsIntSpace);
    StripSpec(s, IsIntSpace);
    if t != [] {
      assert t[0] in s;
      assert t[|t| - 1] in s;
    }
  }

  /** str(n) for a non-negative n. */
  function NatToString(n: nat): (s: string)
    ensures s != [] && forall i :: 0 <= i < |s| ==> IsDigit(s[i])
    decreases n
  {
    if n < 10 then [DigitChar(n)] else NatToString(n / 10) + [DigitChar(n % 10)]
  }

  /** str(n) for any int n. */
  function IntToString(n: int): (s: string)
    ensures s != [] && forall i :: 0 <= i < |s| ==> IsDigit(s[i]) || (i == 0 && s[i] == '-')
  {
    if n < 0 then "-" + NatToString(-n) else NatToString(n)
  }

  lemma {:induction false} NatToStringValue(n: nat)
    ensures DigitsValue(NatToString(n)) == n
    decreases n
  {
    if n >= 10 {
      NatToStringValue(n / 10);
      var s := NatToString(n);
      assert s[..|s| - 1] == NatToString(n / 10);
    }
  }

  /** int(str(n)) == n for every n whose decimal form has at most MaxStrDigits digits;
      for a longer one int() raises. */
  lemma IntToStringRoundTrip(n: int)
    ensures ParseInt(IntToString(n)) == if |NatToString(if n < 0 then -n else n)| <= MaxStrDigits then Some(n) else None
  {
    if n < 0 {
      var s := IntToString(n);
      NegativeDigitsParse(s);
      assert s[1..] == NatToString(-n);
      NatToStringValue(-n);
    } else {
      NatToStringValue(n);
      DigitsParse(NatToString(n));
    }
  }

  /** str() prints different integers differently. */
  lemma IntToStringInjective(a: int, b: int)
    ensures IntToString(a) == IntToString(b) ==> a == b
  {
    if IntToString(a) == IntToString(b) {
      var s := IntToString(a);
      if a < 0 && b < 0 {
        assert s[1..] == NatToString(-a) == NatToString(-b);
        NatToStringValue(-a);
        NatToStringValue(-b);
      } else if a >= 0 && b >= 0 {
        NatToStringValue(a);
        NatToStringValue(b);
      }
    }
    if a < 0 <= b {
      assert IntToString(a)[0] == '-' && IsDigit(IntToString(b)[0]);
    } else if b < 0 <= a {
      assert IntToString(b)[0] == '-' && IsDigit(IntToString(a)[0]);
    }
  }

  /** A minus sign followed by a run of digits converts to the negated value when the
      run has at most MaxStrDigits digits, and int() raises on it otherwise. */
  lemma NegativeDigitsParse(s: string)
    requires |s| >= 2 && s[0] == '-' && forall i :: 1 <= i < |s| ==> IsDigit(s[i])
    ensures ParseInt(s) == if |s| - 1 <= MaxStrDigits then Some(-(DigitsValue(s[1..]) as int)) else None
  {
    assert StripBy(s, IsIntSpace) == s by {
      StripUnchanged(s, IsIntSpace);
    }
    MinusSignParse(s);
    DigitsAreGroups(s[1..]);
    DigitCountOfDigits(s[1..]);
  }

  /** int() of text that strip() leaves alone and that starts with a minus sign. */
  lemma MinusSignParse(t: string)
    requires t != [] && t[0] == '-' && StripBy(t, IsIntSpace) == t
    ensures ParseInt(t) == if IsLiteral(t[1..]) then Some(-(DigitsValue(t[1..]) as int)) else None
  {
  }

  /** A separator U+001C..U+001F is whitespace to strip() but not to int(): "1\U{1C}"
      strips to "1", yet int() raises on it. */
  lemma SeparatorIsNotIntSpace()
    ensures Strip("1\U{1C}") == "1"
    ensures ParseInt("1\U{1C}") == None
  {
    var s := "1\U{1C}";
    assert TrimStart(s, IsSpace) == s;
    assert s[..1] == "1";
    assert TrimStart(s, IsIntSpace) == s && TrimEnd(s, IsIntSpace) == s;
  }
}
