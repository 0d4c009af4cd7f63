/** The USFM line parser (process_file): a fold over a file's lines that carries the
    current book, chapter and verse, cleans every line that comes after the first
    chapter and verse, and records each word of it in a file-local concordance. */
module Parser {
  import opened Wrappers
  import opened Text
  import opened Refs
  import opened Concordances

  /** The context that persists from line to line: current_book, current_chapter and
      current_verse, each the text a marker line captured, "" until then. */
  datatype ParserState = ParserState(book: string, chapter: string, verse: string)

  const Initial: ParserState := ParserState("", "", "")

  /** The ValueError that int() raises, with the text it could not convert. */
  datatype Error = NotAnInteger(text: string)

  /** What the fold carries: the parser state and the concordance so far. */
  datatype Progress = Progress(state: ParserState, conc: Concordance)

  // ---------------------------------------------------------------------------
  // Line patterns
  // ---------------------------------------------------------------------------

  /** `(.*)$` on what follows a marker: `.` takes everything but a newline, and `$`
      matches at the end or just before one final newline. */
  function MatchRest(rest: string): (r: Option<string>)
    ensures r.Some? <==> forall i :: 0 <= i < |rest| - 1 ==> rest[i] != '\n'
    ensures r.Some? ==> '\n' !in r.value && (rest == r.value || rest == r.value + "\n")
  {
    if '\n' !in rest then Some(rest)
    else if rest[|rest| - 1] == '\n' && '\n' !in rest[..|rest| - 1] then Some(rest[..|rest| - 1])
    else None
  }

  /** `^\\<tag> (.*)$`: the line starts with a backslash, the marker letter and a space,
      and no newline comes after that but a final one; the group is what follows the
      space, without that final newline. */
  function MatchMarker(line: string, tag: char): (r: Option<string>)
    ensures r.Some? <==> |line| >= 3 && line[..3] == ['\\', tag, ' '] && forall i :: 3 <= i < |line| - 1 ==> line[i] != '\n'
    ensures r.Some? ==> '\n' !in r.value && (line[3..] == r.value || line[3..] == r.value + "\n")
  {
    if |line| >= 3 && line[..3] == ['\\', tag, ' '] then
      assert forall i :: 0 <= i < |line| - 4 ==> line[3..][i] == line[3 + i];
      MatchRest(line[3..])
    else None
  }

  /** HEADING_REGEX `^\\h (.*)$`: the heading text. */
  function MatchHeading(line: string): Option<string> {
    MatchMarker(line, 'h')
  }

  /** CHAPTER_REGEX `^\\c (.*)$`: the chapter text, which need not be a number. */
  function MatchChapter(line: string): Option<string> {
    MatchMarker(line, 'c')
  }

  /** The shape VERSE_REGEX `^\\v (\d+) (.*)$` matches with a verse number of n digits:
      `\v `, the n digits, a space, then text with no newline but a final one. */
  predicate VerseShape(line: string, n: nat) {
    && 0 < n && 4 + n <= |line| && line[..3] == "\\v "
    && (forall i :: 3 <= i < 3 + n ==> IsDigit(line[i]))
    && line[3 + n] == ' '
    && (forall i :: 4 + n <= i < |line| - 1 ==> line[i] != '\n')
  }

  /** A line of that shape has only one verse number: the whole digit run, after which
      `(.*)$` matches. */
  lemma VerseShapeUnique(line: string, n: nat)
    requires VerseShape(line, n)
    ensures SpanLength(line[3..], IsDigit) == n && MatchRest(line[4 + n..]).Some?
  {
    var rest := line[3..];
    assert forall i :: 0 <= i < n ==> rest[i] == line[3 + i];
    assert rest[n] == ' ';
    SpanLengthUnique(rest, IsDigit, n);
    var tail := line[4 + n..];
    assert forall i :: 0 <= i < |tail| ==> tail[i] == line[4 + n + i];
  }

  lemma VerseShapesUnique(line: string)
    ensures forall n :: VerseShape(line, n) ==> SpanLength(line[3..], IsDigit) == n && MatchRest(line[4 + n..]).Some?
  {
    forall n | VerseShape(line, n)
      ensures SpanLength(line[3..], IsDigit) == n && MatchRest(line[4 + n..]).Some?
    {
      VerseShapeUnique(line, n);
    }
  }

  /** VERSE_REGEX `^\\v (\d+) (.*)$`: the verse number, a non-empty run of digits that
      must be followed by a space. The line matches exactly when it has that shape for
      some number of digits, and the group is those digits. */
  function MatchVerse(line: string): (r: Option<string>)
    ensures r.Some? <==> exists n :: VerseShape(line, n)
    ensures r.Some? ==> VerseShape(line, |r.value|) && r.value == line[3..3 + |r.value|]
    ensures r.Some? ==> r.value != [] && forall i :: 0 <= i < |r.value| ==> IsDigit(r.value[i])
  {
    VerseShapesUnique(line);
    if |line| >= 3 && line[..3] == "\\v " then
      var rest := line[3..];
      var n := SpanLength(rest, IsDigit);
      assert forall i :: 0 <= i < n ==> rest[i] == line[3 + i];
      if 0 < n < |rest| && rest[n] == ' ' then
        var tail := rest[n + 1..];
        assert tail == line[4 + n..];
        assert forall i :: 0 <= i < |tail| ==> tail[i] == line[4 + n + i];
        assert forall i :: 4 + n <= i < |line| ==> line[i] == tail[i - 4 - n];
        assert forall i :: 3 <= i < 3 + n ==> line[i] == rest[i - 3];
        if MatchRest(tail).Some? then
          assert VerseShape(line, n);
          Some(rest[..n])
        else
          assert forall m :: VerseShape(line, m) ==> m == n;
          None
      else None
    else None
  }

  /** A line the parser goes on to clean and scan: neither a heading nor a chapter line. */
  predicate Scanned(line: string) {
    MatchHeading(line).None? && MatchChapter(line).None?
  }

  predicate IsVerseLine(line: string) {
    Scanned(line) && MatchVerse(line).Some?
  }

  predicate IsChapterLine(line: string) {
    MatchHeading(line).None? && MatchChapter(line).Some?
  }

  // ---------------------------------------------------------------------------
  // Cleaning and recording one line
  // ---------------------------------------------------------------------------

  /** The line after footnotes, markers and digit runs are replaced by spaces, with its
      punctuation still in place: the text every reference of the line carries. */
  function DisplayText(line: string): string {
    RemoveNumbers(RemoveMarkers(RemoveFootnotes(line)))
  }

  /** The words of a line: its display text without punctuation, split on whitespace. */
  function LineWords(line: string): seq<string> {
    Split(Strip(RemovePunctuation(DisplayText(line))))
  }

  /** A word as the analyzer records it: non-empty, with no whitespace, no digit and no
      punctuation character. */
  predicate IsCleanWord(w: string) {
    w != [] && forall i :: 0 <= i < |w| ==> NotSpace(w[i]) && !IsDigit(w[i]) && !IsPunctuation(w[i])
  }

  /** `VerseReference(current_book, int(current_chapter), int(current_verse), path, text)`:
      the chapter is converted first, so its error is the one raised. */
  function MakeRef(st: ParserState, path: string, text: string): (r: Result<VerseReference, Error>)
    ensures r.Success? <==> ParseInt(st.chapter).Some? && ParseInt(st.verse).Some?
    ensures r.Success? ==> Key(r.value) == RefKey(st.book, ParseInt(st.chapter).value, ParseInt(st.verse).value)
                           && r.value.filePath == path && r.value.text == text
    ensures r.Failure? ==> r.error == NotAnInteger(if ParseInt(st.chapter).None? then st.chapter else st.verse)
  {
    match ParseInt(st.chapter)
    case None => Failure(NotAnInteger(st.chapter))
    case Some(chapter) =>
      match ParseInt(st.verse)
      case None => Failure(NotAnInteger(st.verse))
      case Some(verse) => Success(VerseReference(st.book, chapter, verse, path, text))
  }

  /** One pass of `for word in words`: the stripped word, when non-empty, is recorded
      at ref, the reference of the current state (or the error building it raises). */
  function RecordWord(c: Concordance, word: string, ref: Result<VerseReference, Error>): Result<Concordance, Error>
  {
    var w := Strip(word);
    if |w| == 0 then Success(c)
    else
      match ref
      case Failure(e) => Failure(e)
      case Success(r) => Success(Record(c, w, r))
  }

  /** The loop over a line's words, as a fold over them in order; the first error stops it. */
  function RecordWords(c: Concordance, words: seq<string>, ref: Result<VerseReference, Error>): Result<Concordance, Error>
    decreases |words|
  {
    if words == [] then Success(c)
    else
      match RecordWords(c, words[..|words| - 1], ref)
      case Failure(e) => Failure(e)
      case Success(c1) => RecordWord(c1, words[|words| - 1], ref)
  }

  /** One iteration of the line loop: heading and chapter lines only set their part of
      the state; a verse line sets the verse and is still scanned; nothing is recorded
      while the chapter or the verse is empty, or when the cleaned line is empty. */
  function ProcessLine(p: Progress, line: string, path: string): Result<Progress, Error>
  {
    match MatchHeading(line)
    case Some(book) => Success(p.(state := p.state.(book := book)))
    case None =>
      match MatchChapter(line)
      case Some(chapter) => Success(p.(state := p.state.(chapter := chapter)))
      case None =>
        var st := match MatchVerse(line) case Some(verse) => p.state.(verse := verse) case None => p.state;
        if st.chapter == "" || st.verse == "" then Success(Progress(st, p.conc))
        else
          var text := DisplayText(line);
          var cleaned := Strip(RemovePunctuation(text));
          if |cleaned| == 0 then Success(Progress(st, p.conc))
          else
            match RecordWords(p.conc, Split(cleaned), MakeRef(st, path, text))
            case Failure(e) => Failure(e)
            case Success(c) => Success(Progress(st, c))
  }

  /** The line loop as a left fold over the lines; the first error aborts the file. */
  function ParseLines(lines: seq<string>, path: string): Result<Progress, Error>
    decreases |lines|
  {
    if lines == [] then Success(Progress(Initial, Empty))
    else
      match ParseLines(lines[..|lines| - 1], path)
      case Failure(e) => Failure(e)
      case Success(p) => ProcessLine(p, lines[|lines| - 1], path)
  }

  /** process_file on the lines readlines() yields: the file-local concordance, or the
      error that aborted the parse. */
  function ParseFile(lines: seq<string>, path: string): Result<Concordance, Error> {
    match ParseLines(lines, path)
    case Failure(e) => Failure(e)
    case Success(p) => Success(p.conc)
  }

  /** Once a word raises, the rest of the line cannot undo it. */
  lemma {:induction false} RecordWordsFailureSticks(c: Concordance, words: seq<string>, ref: Result<VerseReference, Error>, k: nat, e: Error)
    requires k <= |words| && RecordWords(c, words[..k], ref) == Failure(e)
    ensures RecordWords(c, words, ref) == Failure(e)
    decreases |words| - k
  {
    if k < |words| {
      assert words[..k + 1][..k] == words[..k];
      RecordWordsFailureSticks(c, words, ref, k + 1, e);
    } else {
      assert words[..k] == words;
    }
  }

  /** Recording the words of a line keeps the dict well formed and every entry filed
      under its own word. */
  lemma {:induction false} RecordWordsValid(c: Concordance, words: seq<string>, ref: Result<VerseReference, Error>)
    requires Valid(c) && RecordWords(c, words, ref).Success?
    ensures Valid(RecordWords(c, words, ref).value)
    ensures WordsMatchKeys(c) ==> WordsMatchKeys(RecordWords(c, words, ref).value)
    decreases |words|
  {
    if words != [] {
      var init, last := words[..|words| - 1], words[|words| - 1];
      RecordWordsValid(c, init, ref);
      var c1 := RecordWords(c, init, ref).value;
      if Strip(last) != [] {
        RecordValid(c1, Strip(last), ref.value);
      }
    }
  }

  /** Each line keeps the dict well formed and every entry filed under its own word. */
  lemma LineValid(p: Progress, line: string, path: string)
    requires Valid(p.conc) && ProcessLine(p, line, path).Success?
    ensures Valid(ProcessLine(p, line, path).value.conc)
    ensures WordsMatchKeys(p.conc) ==> WordsMatchKeys(ProcessLine(p, line, path).value.conc)
  {
    if Recording(p.state, line) {
      var text := DisplayText(line);
      var cleaned := Strip(RemovePunctuation(text));
      if |cleaned| != 0 {
        RecordWordsValid(p.conc, Split(cleaned), MakeRef(NextState(p.state, line), path, text));
      }
    }
  }

  /** Every concordance the parser builds is a well-formed dict filed by word. */
  lemma {:induction false} ParseLinesValid(lines: seq<string>, path: string)
    requires ParseLines(lines, path).Success?
    ensures Valid(ParseLines(lines, path).value.conc) && WordsMatchKeys(ParseLines(lines, path).value.conc)
    decreases |lines|
  {
    if lines != [] {
      var init := lines[..|lines| - 1];
      ParseLinesValid(init, path);
      LineValid(ParseLines(init, path).value, lines[|lines| - 1], path);
    }
  }

  /** Once a line raises, the rest of the file cannot undo it. */
  lemma {:induction false} ParseLinesFailureSticks(lines: seq<string>, path: string, k: nat, e: Error)
    requires k <= |lines| && ParseLines(lines[..k], path) == Failure(e)
    ensures ParseLines(lines, path) == Failure(e)
    decreases |lines| - k
  {
    if k < |lines| {
      assert lines[..k + 1][..k] == lines[..k];
      ParseLinesFailureSticks(lines, path, k + 1, e);
    } else {
      assert lines[..k] == lines;
    }
  }

  // ---------------------------------------------------------------------------
  // process_file, as the source writes it
  // ---------------------------------------------------------------------------

  method ProcessFile(lines: seq<string>, path: string) returns (r: Result<Concordance, Error>)
    ensures r == ParseFile(lines, path)
  {
    var wordEntries := Empty;
    var currentBook, currentChapter, currentVerse := "", "", "";
    var i := 0;
    while i < |lines|
      invariant 0 <= i <= |lines|
      invariant ParseLines(lines[..i], path) == Success(Progress(ParserState(currentBook, currentChapter, currentVerse), wordEntries))
    {
      var line := lines[i];
      ghost var before := Progress(ParserState(currentBook, currentChapter, currentVerse), wordEntries);
      assert lines[..i + 1][..i] == lines[..i];
      i := i + 1;
      assert ParseLines(lines[..i], path) == ProcessLine(before, line, path);

      var heading := MatchHeading(line);
      if heading.Some? {
        currentBook := heading.value;
        continue;
      }
      var chapter := MatchChapter(line);
      if chapter.Some? {
        currentChapter := chapter.value;
        continue;
      }
      var verse := MatchVerse(line);
      if verse.Some? {
        currentVerse := verse.value;
      }
      if currentChapter == "" || currentVerse == "" {
        continue;
      }

      var text := DisplayText(line);
      var cleaned := Strip(RemovePunctuation(text));
      if |cleaned| == 0 {
        continue;
      }

      var recorded := RecordLine(wordEntries, Split(cleaned), ParserState(currentBook, currentChapter, currentVerse), path, text);
      if recorded.Failure? {
        ParseLinesFailureSticks(lines, path, i, recorded.error);
        return Failure(recorded.error);
      }
      wordEntries := recorded.value;
    }
    assert lines[..|lines|] == lines;
    return Success(wordEntries);
  }

  /** The inner `for word in words` loop of process_file for one line, at the state st. */
  method RecordLine(c: Concordance, words: seq<string>, st: ParserState, path: string, text: string)
    returns (r: Result<Concordance, Error>)
    ensures r == RecordWords(c, words, MakeRef(st, path, text))
  {
    var wordEntries := c;
    var j := 0;
    while j < |words|
      invariant 0 <= j <= |words|
      invariant RecordWords(c, words[..j], MakeRef(st, path, text)) == Success(wordEntries)
    {
      assert words[..j + 1][..j] == words[..j];
      assert RecordWords(c, words[..j + 1], MakeRef(st, path, text)) == RecordWord(wordEntries, words[j], MakeRef(st, path, text));
      var word := Strip(words[j]);
      if |word| == 0 {
        j := j + 1;
        continue;
      }
      var chapterNumber := ParseInt(st.chapter);
      if chapterNumber.None? {
        RecordWordsFailureSticks(c, words, MakeRef(st, path, text), j + 1, NotAnInteger(st.chapter));
        return Failure(NotAnInteger(st.chapter));
      }
      var verseNumber := ParseInt(st.verse);
      if verseNumber.None? {
        RecordWordsFailureSticks(c, words, MakeRef(st, path, text), j + 1, NotAnInteger(st.verse));
        return Failure(NotAnInteger(st.verse));
      }
      var verseRef := VerseReference(st.book, chapterNumber.value, verseNumber.value, path, text);
      assert MakeRef(st, path, text) == Success(verseRef);
      ghost var expected := Record(wordEntries, word, verseRef);

      if word !in wordEntries.entries {
        wordEntries := Concordance(wordEntries.order + [word], wordEntries.entries[word := WordEntry(word, Singleton(verseRef))]);
      } else {
        var wordEntry := wordEntries.entries[word];
        if !Contains(wordEntry.refs, verseRef) {
          wordEntries := wordEntries.(entries := wordEntries.entries[word := wordEntry.(refs := Add(wordEntry.refs, verseRef))]);
        }
      }
      assert wordEntries == expected;
      j := j + 1;
    }
    assert words[..|words|] == words;
    return Success(wordEntries);
  }

  // ---------------------------------------------------------------------------
  // Properties of one line
  // ---------------------------------------------------------------------------

  /** The state a line leaves behind: the first of the heading, chapter and verse
      patterns that matches sets its part; any other line leaves the state alone. */
  function NextState(st: ParserState, line: string): ParserState {
    if MatchHeading(line).Some? then st.(book := MatchHeading(line).value)
    else if MatchChapter(line).Some? then st.(chapter := MatchChapter(line).value)
    else if MatchVerse(line).Some? then st.(verse := MatchVerse(line).value)
    else st
  }

  /** A line whose words are recorded: it is scanned, and once it is read the chapter
      and the verse are both set. */
  predicate Recording(st: ParserState, line: string) {
    Scanned(line) && NextState(st, line).chapter != "" && NextState(st, line).verse != ""
  }

  /** The words the loop over words records: each one stripped, the empty ones dropped. */
  function KeptWords(words: seq<string>): set<string>
    decreases |words|
  {
    if words == [] then {}
    else
      var w := Strip(words[|words| - 1]);
      KeptWords(words[..|words| - 1]) + if |w| == 0 then {} else {w}
  }

  /** Every word split out of a line is clean, and strip() leaves it as it is. */
  lemma WordsOfLineAreClean(line: string)
    ensures forall w :: w in LineWords(line) ==> IsCleanWord(w) && Strip(w) == w
  {
    var text := DisplayText(line);
    var bare := RemovePunctuation(text);
    var cleaned := Strip(bare);
    StripSpec(bare, IsSpace);
    var kept := (c: char) => !IsDigit(c) && !IsPunctuation(c);
    forall i | 0 <= i < |cleaned|
      ensures IsSpace(cleaned[i]) || kept(cleaned[i])
    {
      var ch := cleaned[i];
      assert ch in bare;
      assert ch != ' ' ==> ch in text;
    }
    SplitWords(cleaned, kept);
    var ws := Split(cleaned);
    forall k | 0 <= k < |ws|
      ensures IsCleanWord(ws[k]) && Strip(ws[k]) == ws[k]
    {
      StripUnchanged(ws[k], IsSpace);
    }
  }

  /** A verse line `\v <digits> <text>` whose text holds no backslash and no digit: the
      cleaning passes turn the marker and the number into spaces and keep the text as
      it is, so the words of the line are the words of its text once punctuation is
      removed. */
  lemma PlainVerseText(d: string, t: string)
    requires d != [] && forall i :: 0 <= i < |d| ==> IsDigit(d[i])
    requires '\\' !in t && forall i :: 0 <= i < |t| ==> !IsDigit(t[i])
    ensures DisplayText("\\v " + d + " " + t) == "    " + t
    ensures LineWords("\\v " + d + " " + t) == Split(RemovePunctuation(t))
  {
    VerseLineParts(d, t);
    VerseDisplayText(d, t);
    SpacedWords(t);
  }

  /** The display text of such a line: the marker and the number are spaces. */
  lemma VerseDisplayText(d: string, t: string)
    requires d != [] && forall i :: 0 <= i < |d| ==> IsDigit(d[i])
    requires '\\' !in t && forall i :: 0 <= i < |t| ==> !IsDigit(t[i])
    ensures DisplayText("\\v" + (" " + (d + (" " + t)))) == " " + (" " + (" " + (" " + t)))
  {
    var y := " " + t;
    var u := " " + (d + y);
    assert '\\' !in u by {
      assert '\\' !in d && '\\' !in y;
    }
    VerseMarkerRemoved(u);
    assert forall i :: 0 <= i < |y| ==> !IsDigit(y[i]) by {
      forall i | 0 <= i < |y|
        ensures !IsDigit(y[i])
      {
        if i > 0 {
          assert y[i] == t[i - 1];
        }
      }
    }
    VerseNumberRemoved(d, y);
  }

  /** Spaces in front of a text add no word, before or after punctuation is removed
      and the result stripped. */
  lemma SpacedWords(t: string)
    ensures Split(Strip(RemovePunctuation(" " + (" " + (" " + (" " + t)))))) == Split(RemovePunctuation(t))
  {
    var z := " " + (" " + (" " + (" " + t)));
    PlainCharNotPunctuation(' ');
    ReplaceRunsSpaceFront(" " + (" " + (" " + t)), IsPunctuation);
    ReplaceRunsSpaceFront(" " + (" " + t), IsPunctuation);
    ReplaceRunsSpaceFront(" " + t, IsPunctuation);
    ReplaceRunsSpaceFront(t, IsPunctuation);
    var w := RemovePunctuation(t);
    SplitSpaceFront(" " + (" " + (" " + w)));
    SplitSpaceFront(" " + (" " + w));
    SplitSpaceFront(" " + w);
    SplitSpaceFront(w);
    SplitIgnoresStrip(RemovePunctuation(z));
  }

  /** How the verse line is put together, and the four spaces in front of its text. */
  lemma VerseLineParts(d: string, t: string)
    ensures "\\v " + d + " " + t == "\\v" + (" " + (d + (" " + t)))
    ensures "    " + t == " " + (" " + (" " + (" " + t)))
  {
  }

  /** A leading marker `\v` becomes one space when no word character follows it and the
      rest has no backslash; nothing else is a footnote or a marker. */
  lemma VerseMarkerRemoved(u: string)
    requires u != [] && !IsWordChar(u[0]) && '\\' !in u
    ensures RemoveMarkers(RemoveFootnotes("\\v" + u)) == " " + u
  {
    var line := "\\v" + u;
    var w := line[1..];
    assert w == "v" + u && w[1..] == u;
    assert RemoveFootnotes(line) == line by {
      FrontCopied(line);
      RemoveFootnotesNoBackslash(w);
    }
    assert RemoveMarkers(line) == " " + u by {
      SpanLengthUnique(w, IsWordChar, 1);
      assert line[2..] == u;
      RemoveMarkersNoBackslash(u);
    }
  }

  /** The verse number of such a line becomes one more space. */
  lemma VerseNumberRemoved(d: string, y: string)
    requires d != [] && forall i :: 0 <= i < |d| ==> IsDigit(d[i])
    requires y != [] && forall i :: 0 <= i < |y| ==> !IsDigit(y[i])
    ensures RemoveNumbers(" " + (" " + (d + y))) == " " + (" " + (" " + y))
  {
    ReplaceRunsLeadingRun(d, y, IsDigit);
    ReplaceRunsIdentity(y, IsDigit);
    ReplaceRunsSpaceFront(d + y, IsDigit);
    ReplaceRunsSpaceFront(" " + (d + y), IsDigit);
  }

  predicate IsLetter(c: char) { ('a' <= c <= 'z') || ('A' <= c <= 'Z') }

  /** Non-empty words made of ASCII letters only. */
  predicate LetterWords(ws: seq<string>) {
    forall k :: 0 <= k < |ws| ==> ws[k] != [] && forall i :: 0 <= i < |ws[k]| ==> IsLetter(ws[k][i])
  }

  /** Joining letter words gives letters and single spaces, ending in a letter. */
  lemma {:induction false} JoinLetterWords(ws: seq<string>)
    requires LetterWords(ws)
    ensures var j := JoinWords(ws); forall i :: 0 <= i < |j| ==> j[i] == ' ' || IsLetter(j[i])
    ensures ws != [] ==> JoinWords(ws) != [] && IsLetter(JoinWords(ws)[|JoinWords(ws)| - 1])
    decreases |ws|
  {
    if |ws| > 1 {
      var init, last := ws[..|ws| - 1], ws[|ws| - 1];
      assert LetterWords(init) by {
        forall k | 0 <= k < |init|
          ensures init[k] == ws[k]
        {
        }
      }
      JoinLetterWords(init);
      var a := JoinWords(init);
      var j := a + " " + last;
      forall i | 0 <= i < |j|
        ensures j[i] == ' ' || IsLetter(j[i])
      {
        if i < |a| {
          assert j[i] == a[i];
        } else if i > |a| {
          assert j[i] == last[i - |a| - 1];
        }
      }
    }
  }

  /** A verse line whose text is letter words joined by single spaces and closed by a
      full stop: its words are exactly those words, in order. */
  lemma VerseOfWords(d: string, ws: seq<string>)
    requires d != [] && forall i :: 0 <= i < |d| ==> IsDigit(d[i])
    requires ws != [] && LetterWords(ws)
    ensures LineWords("\\v " + d + " " + JoinWords(ws) + ".\n") == ws
  {
    var j := JoinWords(ws);
    var t := j + ".\n";
    JoinLetterWords(ws);
    SentenceText(j);
    assert "\\v " + d + " " + JoinWords(ws) + ".\n" == "\\v " + d + " " + t;
    PlainVerseText(d, t);
    SplitSpaceSuffix(j, " \n");
    SplitJoinWords(ws);
  }

  /** Letters and spaces closed by a full stop and a newline: no backslash, no digit,
      and the full stop is the only punctuation. */
  lemma SentenceText(j: string)
    requires j != [] && IsLetter(j[|j| - 1])
    requires forall i :: 0 <= i < |j| ==> j[i] == ' ' || IsLetter(j[i])
    ensures var t := j + ".\n"; '\\' !in t && forall i :: 0 <= i < |t| ==> !IsDigit(t[i])
    ensures RemovePunctuation(j + ".\n") == j + " \n"
  {
    var t := j + ".\n";
    forall i | 0 <= i < |t|
      ensures t[i] != '\\' && !IsDigit(t[i])
    {
      if i < |j| {
        assert t[i] == j[i];
      }
    }
    assert ReplaceRuns(j, IsPunctuation) == j by {
      forall i | 0 <= i < |j|
        ensures !IsPunctuation(j[i])
      {
        PlainCharNotPunctuation(j[i]);
      }
      ReplaceRunsIdentity(j, IsPunctuation);
    }
    PlainCharNotPunctuation(j[|j| - 1]);
    ReplaceRunsAppend(j, ".\n", IsPunctuation);
    FullStopRemoved();
  }

  lemma PlainCharNotPunctuation(c: char)
    requires c == ' ' || IsLetter(c)
    ensures !IsPunctuation(c)
  {
  }

  /** A closing full stop becomes a space. */
  lemma FullStopRemoved()
    ensures RemovePunctuation(".\n") == " \n"
  {
    assert SpanLength(".\n", IsPunctuation) == 1;
    assert ".\n"[1..] == "\n";
  }

  /** For words that strip() leaves alone, the kept words are all of them. */
  lemma {:induction false} KeptStrippedWords(words: seq<string>)
    requires forall w :: w in words ==> w != [] && Strip(w) == w
    ensures KeptWords(words) == set w | w in words
    decreases |words|
  {
    if words != [] {
      var init := words[..|words| - 1];
      assert forall w :: w in init ==> w in words;
      KeptStrippedWords(init);
      assert words == init + [words[|words| - 1]];
    }
  }

  /** Recording the words of one line removes and reorders nothing, and the keys it adds
      are exactly the kept words. */
  lemma {:induction false} RecordWordsGrow(c: Concordance, words: seq<string>, ref: Result<VerseReference, Error>)
    requires RecordWords(c, words, ref).Success?
    ensures c.order <= RecordWords(c, words, ref).value.order
    ensures forall k :: k in c.entries ==>
              k in RecordWords(c, words, ref).value.entries && c.entries[k].refs.refs <= RecordWords(c, words, ref).value.entries[k].refs.refs
    decreases |words|
  {
    if words != [] {
      var init, last := words[..|words| - 1], words[|words| - 1];
      RecordWordsGrow(c, init, ref);
      var c1 := RecordWords(c, init, ref).value;
      assert RecordWords(c, words, ref) == RecordWord(c1, last, ref);
      if Strip(last) != [] {
        RecordKeepsOrder(c1, Strip(last), ref.value);
      }
    }
  }

  /** The keys that recording the words of one line adds are exactly the kept words. */
  lemma {:induction false} RecordWordsKeys(c: Concordance, words: seq<string>, ref: Result<VerseReference, Error>)
    requires RecordWords(c, words, ref).Success?
    ensures RecordWords(c, words, ref).value.entries.Keys == c.entries.Keys + KeptWords(words)
    decreases |words|
  {
    if words != [] {
      var init, last := words[..|words| - 1], words[|words| - 1];
      RecordWordsKeys(c, init, ref);
      var c1 := RecordWords(c, init, ref).value;
      assert RecordWords(c, words, ref) == RecordWord(c1, last, ref);
      if Strip(last) != [] {
        RecordKeepsOrder(c1, Strip(last), ref.value);
        assert KeptWords(words) == KeptWords(init) + {Strip(last)};
      } else {
        assert KeptWords(words) == KeptWords(init);
      }
    }
  }

  /** After the words of one line are recorded, every kept word holds the reference of
      the state (so building it did not fail). */
  lemma {:induction false} RecordWordsAt(c: Concordance, words: seq<string>, ref: Result<VerseReference, Error>)
    requires Valid(c) && RecordWords(c, words, ref).Success? && KeptWords(words) != {}
    ensures ref.Success?
    ensures var c' := RecordWords(c, words, ref).value;
      forall k :: k in KeptWords(words) ==> k in c'.entries && Key(ref.value) in KeysOf(c'.entries[k].refs.refs)
    decreases |words|
  {
    var init, last := words[..|words| - 1], words[|words| - 1];
    var c1 := RecordWords(c, init, ref).value;
    assert RecordWords(c, words, ref) == RecordWord(c1, last, ref);
    var w := Strip(last);
    if w == [] {
      assert KeptWords(words) == KeptWords(init);
      RecordWordsAt(c, init, ref);
    } else {
      assert KeptWords(words) == KeptWords(init) + {w};
      var c' := Record(c1, w, ref.value);
      forall k | k in KeptWords(words)
        ensures k in c'.entries && Key(ref.value) in KeysOf(c'.entries[k].refs.refs)
      {
        if k == w {
          RecordWordsValid(c, init, ref);
          RecordHolds(c1, w, ref.value);
        } else {
          RecordWordsAt(c, init, ref);
          assert c'.entries[k] == c1.entries[k];
        }
      }
    }
  }

  /** Recording the words of one line gives each word at most one new reference, the
      reference of the state, appended after the ones it had. */
  lemma {:induction false} RecordWordsNewRefs(c: Concordance, words: seq<string>, ref: Result<VerseReference, Error>)
    requires Valid(c) && RecordWords(c, words, ref).Success?
    ensures var c' := RecordWords(c, words, ref).value;
      forall k :: k in c'.entries ==>
        RefsOf(c', k) == RefsOf(c, k) || (ref.Success? && RefsOf(c', k) == RefsOf(c, k) + [ref.value])
    decreases |words|
  {
    if words != [] {
      var init, last := words[..|words| - 1], words[|words| - 1];
      RecordWordsNewRefs(c, init, ref);
      var c1 := RecordWords(c, init, ref).value;
      assert RecordWords(c, words, ref) == RecordWord(c1, last, ref);
      var w := Strip(last);
      if w != [] {
        var c' := Record(c1, w, ref.value);
        forall k | k in c'.entries
          ensures RefsOf(c', k) == RefsOf(c, k) || RefsOf(c', k) == RefsOf(c, k) + [ref.value]
        {
          if k != w {
            assert RefsOf(c', k) == RefsOf(c1, k);
          } else if w !in c1.entries {
            RecordWordsGrow(c, init, ref);
            assert RefsOf(c1, k) == [] == RefsOf(c, k);
          } else if RefsOf(c1, w) == RefsOf(c, w) + [ref.value] {
            RecordWordsValid(c, init, ref);
            assert ref.value in c1.entries[w].refs.refs;
            assert Contains(c1.entries[w].refs, ref.value);
            assert RefsOf(c', k) == RefsOf(c1, k);
          } else {
            assert RefsOf(c', k) == RefsOf(c1, k) || RefsOf(c', k) == RefsOf(c1, k) + [ref.value];
          }
        }
      }
    }
  }

  /** Recording the words of one line leaves the references of every other word as
      they were. */
  lemma {:induction false} RecordWordsOthers(c: Concordance, words: seq<string>, ref: Result<VerseReference, Error>)
    requires RecordWords(c, words, ref).Success?
    ensures forall k :: k !in KeptWords(words) ==> RefsOf(RecordWords(c, words, ref).value, k) == RefsOf(c, k)
    decreases |words|
  {
    if words != [] {
      var init, last := words[..|words| - 1], words[|words| - 1];
      RecordWordsOthers(c, init, ref);
      var c1 := RecordWords(c, init, ref).value;
      assert RecordWords(c, words, ref) == RecordWord(c1, last, ref);
      if Strip(last) != [] {
        assert KeptWords(words) == KeptWords(init) + {Strip(last)};
      } else {
        assert KeptWords(words) == KeptWords(init);
      }
    }
  }

  /** The words of one line raise exactly when the state's reference cannot be built
      and some word is kept; the error is the one building it raised. */
  lemma {:induction false} RecordWordsFails(c: Concordance, words: seq<string>, ref: Result<VerseReference, Error>)
    ensures RecordWords(c, words, ref).Failure? <==> ref.Failure? && KeptWords(words) != {}
    ensures RecordWords(c, words, ref).Failure? ==> RecordWords(c, words, ref).error == ref.error
    decreases |words|
  {
    if words != [] {
      RecordWordsFails(c, words[..|words| - 1], ref);
    }
  }

  /** A heading line sets the book and nothing else. */
  lemma HeadingLine(p: Progress, line: string, path: string)
    requires MatchHeading(line).Some?
    ensures ProcessLine(p, line, path) == Success(Progress(p.state.(book := MatchHeading(line).value), p.conc))
  {
  }

  /** A chapter line sets the chapter, to whatever follows `\c `, and nothing else. */
  lemma ChapterLine(p: Progress, line: string, path: string)
    requires IsChapterLine(line)
    ensures ProcessLine(p, line, path) == Success(Progress(p.state.(chapter := MatchChapter(line).value), p.conc))
  {
  }

  /** Whatever a line does to the concordance, it leaves the state NextState gives, and
      it never removes or reorders a key or a reference; a line that is not recorded
      leaves the concordance as it was. */
  lemma LineEffect(p: Progress, line: string, path: string)
    requires ProcessLine(p, line, path).Success?
    ensures var q := ProcessLine(p, line, path).value;
      && q.state == NextState(p.state, line)
      && (!Recording(p.state, line) ==> q.conc == p.conc)
      && p.conc.order <= q.conc.order
      && (forall k :: k in p.conc.entries ==> k in q.conc.entries && p.conc.entries[k].refs.refs <= q.conc.entries[k].refs.refs)
  {
    if Recording(p.state, line) {
      var text := DisplayText(line);
      var cleaned := Strip(RemovePunctuation(text));
      if |cleaned| != 0 {
        RecordWordsGrow(p.conc, Split(cleaned), MakeRef(NextState(p.state, line), path, text));
      }
    }
  }

  /** The reference a line's words are recorded at: the state after the line, the file
      path and the line's display text. */
  function LineRef(st: ParserState, line: string, path: string): Result<VerseReference, Error> {
    MakeRef(NextState(st, line), path, DisplayText(line))
  }

  /** A recorded line adds exactly its words as keys, each at the line's reference, and
      gives every key at most that one new reference, after the ones it had. */
  lemma RecordedLine(p: Progress, line: string, path: string)
    requires Valid(p.conc) && Recording(p.state, line) && ProcessLine(p, line, path).Success?
    ensures ProcessLine(p, line, path).value.conc.entries.Keys == p.conc.entries.Keys + set w | w in LineWords(line)
    ensures LineWords(line) != [] ==>
              && LineRef(p.state, line, path).Success?
              && forall w :: w in LineWords(line) ==>
                   Key(LineRef(p.state, line, path).value) in KeysOf(ProcessLine(p, line, path).value.conc.entries[w].refs.refs)
    ensures var q := ProcessLine(p, line, path).value.conc;
      forall k :: k in q.entries ==>
        || RefsOf(q, k) == RefsOf(p.conc, k)
        || (LineRef(p.state, line, path).Success? && RefsOf(q, k) == RefsOf(p.conc, k) + [LineRef(p.state, line, path).value])
    ensures var q := ProcessLine(p, line, path).value.conc;
      forall k :: k !in LineWords(line) ==> RefsOf(q, k) == RefsOf(p.conc, k)
  {
    var text := DisplayText(line);
    var cleaned := Strip(RemovePunctuation(text));
    var words := Split(cleaned);
    var ref := LineRef(p.state, line, path);
    WordsOfLineAreClean(line);
    KeptStrippedWords(words);
    if |cleaned| != 0 {
      assert ProcessLine(p, line, path) == Success(Progress(NextState(p.state, line), RecordWords(p.conc, words, ref).value));
      RecordWordsKeys(p.conc, words, ref);
      RecordWordsNewRefs(p.conc, words, ref);
      RecordWordsOthers(p.conc, words, ref);
      if words != [] {
        assert words[0] in KeptWords(words);
        RecordWordsAt(p.conc, words, ref);
      }
    } else {
      assert words == [];
    }
  }

  /** A recorded line with words raises exactly when the state's chapter or verse is not
      an integer, and raises what int() raises on the chapter first. */
  lemma LineFailure(p: Progress, line: string, path: string)
    requires Recording(p.state, line) && LineWords(line) != []
    ensures var ref := MakeRef(NextState(p.state, line), path, DisplayText(line));
      && (ProcessLine(p, line, path).Failure? <==> ref.Failure?)
      && (ProcessLine(p, line, path).Failure? ==> ProcessLine(p, line, path).error == ref.error)
  {
    var words := LineWords(line);
    WordsOfLineAreClean(line);
    KeptStrippedWords(words);
    assert words[0] in KeptWords(words);
    RecordWordsFails(p.conc, words, MakeRef(NextState(p.state, line), path, DisplayText(line)));
  }

  /** A verse line sets the verse to its number, which converts when it has at most
      MaxStrDigits digits, and its words are still recorded: with a numeric chapter,
      every word of the line lands at that chapter and verse. */
  lemma VerseLine(p: Progress, line: string, path: string)
    requires Valid(p.conc) && IsVerseLine(line) && p.state.chapter != "" && ParseInt(p.state.chapter).Some?
    requires |MatchVerse(line).value| <= MaxStrDigits
    ensures ParseInt(MatchVerse(line).value) == Some(DigitsValue(MatchVerse(line).value))
    ensures ProcessLine(p, line, path).Success?
    ensures var q := ProcessLine(p, line, path).value;
      && q.state == p.state.(verse := MatchVerse(line).value)
      && forall w :: w in LineWords(line) ==>
           w in q.conc.entries &&
           RefKey(p.state.book, ParseInt(p.state.chapter).value, DigitsValue(MatchVerse(line).value)) in KeysOf(q.conc.entries[w].refs.refs)
  {
    DigitsParse(MatchVerse(line).value);
    if LineWords(line) != [] {
      LineFailure(p, line, path);
    }
    LineEffect(p, line, path);
    RecordedLine(p, line, path);
  }

  /** A verse number longer than MaxStrDigits digits makes int() raise on the first word
      of its line, under a chapter that converts. */
  lemma LongVerseNumberAborts(p: Progress, line: string, path: string)
    requires IsVerseLine(line) && ParseInt(p.state.chapter).Some? && LineWords(line) != []
    requires |MatchVerse(line).value| > MaxStrDigits
    ensures ProcessLine(p, line, path) == Failure(NotAnInteger(MatchVerse(line).value))
  {
    DigitsParse(MatchVerse(line).value);
    LineFailure(p, line, path);
  }

  /** The identities of a sequence of references, in order. */
  function KeySeq(s: seq<VerseReference>): (ks: seq<RefKey>)
    ensures |ks| == |s| && forall i :: 0 <= i < |s| ==> ks[i] == Key(s[i])
    decreases |s|
  {
    if s == [] then [] else KeySeq(s[..|s| - 1]) + [Key(s[|s| - 1])]
  }

  /** The identity of the reference a verse line's words are recorded at, under a
      numeric chapter. */
  function VerseKey(st: ParserState, line: string): RefKey
    requires ParseInt(st.chapter).Some? && MatchVerse(line).Some?
  {
    RefKey(st.book, ParseInt(st.chapter).value, DigitsValue(MatchVerse(line).value))
  }

  /** A verse line whose number has at most MaxStrDigits digits, read under a numeric
      chapter, at a verse no word has a reference to yet: each of its words gets that
      verse appended after the references it had, and every other word keeps its
      references. */
  lemma NewVerseRecorded(p: Progress, line: string, path: string)
    requires Valid(p.conc) && IsVerseLine(line) && ParseInt(p.state.chapter).Some?
    requires |MatchVerse(line).value| <= MaxStrDigits
    requires forall w :: VerseKey(p.state, line) !in KeySeq(RefsOf(p.conc, w))
    ensures ProcessLine(p, line, path).Success?
    ensures ProcessLine(p, line, path).value.state == p.state.(verse := MatchVerse(line).value)
    ensures ProcessLine(p, line, path).value.conc.entries.Keys == p.conc.entries.Keys + set w | w in LineWords(line)
    ensures forall w :: KeySeq(RefsOf(ProcessLine(p, line, path).value.conc, w)) ==
              KeySeq(RefsOf(p.conc, w)) + if w in LineWords(line) then [VerseKey(p.state, line)] else []
  {
    NoDigitsFail("");
    VerseLine(p, line, path);
    RecordedLine(p, line, path);
    var q := ProcessLine(p, line, path).value.conc;
    var k := VerseKey(p.state, line);
    forall w
      ensures KeySeq(RefsOf(q, w)) == KeySeq(RefsOf(p.conc, w)) + if w in LineWords(line) then [k] else []
    {
      if w in LineWords(line) {
        var r := LineRef(p.state, line, path).value;
        assert Key(r) == k;
        assert k in KeysOf(q.entries[w].refs.refs);
        assert RefsOf(q, w) == RefsOf(p.conc, w) + [r];
        assert KeySeq(RefsOf(q, w)) == KeySeq(RefsOf(p.conc, w)) + [k];
      }
    }
  }

  /** A line that looks like a verse marker but does not match the pattern (no number, or
      no space and text after it) leaves the verse as it was, yet is scanned like text. */
  lemma UnmatchedVerseLine(p: Progress, line: string, path: string)
    requires Scanned(line) && MatchVerse(line).None?
    ensures NextState(p.state, line) == p.state
    ensures ProcessLine(p, line, path).Success? ==> ProcessLine(p, line, path).value.state == p.state
  {
  }

  /** Nothing is recorded while the chapter or the verse is still empty. */
  lemma SkippedLine(p: Progress, line: string, path: string)
    requires Scanned(line)
    requires NextState(p.state, line).chapter == "" || NextState(p.state, line).verse == ""
    ensures ProcessLine(p, line, path) == Success(Progress(NextState(p.state, line), p.conc))
  {
  }

  // ---------------------------------------------------------------------------
  // Properties of a whole file
  // ---------------------------------------------------------------------------

  lemma {:induction false} FrontMatterState(lines: seq<string>, path: string)
    requires (forall i :: 0 <= i < |lines| ==> !IsVerseLine(lines[i])) || (forall i :: 0 <= i < |lines| ==> !IsChapterLine(lines[i]))
    ensures ParseLines(lines, path).Success? && ParseLines(lines, path).value.conc == Empty
    ensures (forall i :: 0 <= i < |lines| ==> !IsVerseLine(lines[i])) ==> ParseLines(lines, path).value.state.verse == ""
    ensures (forall i :: 0 <= i < |lines| ==> !IsChapterLine(lines[i])) ==> ParseLines(lines, path).value.state.chapter == ""
    decreases |lines|
  {
    if lines != [] {
      var init, last := lines[..|lines| - 1], lines[|lines| - 1];
      assert forall i :: 0 <= i < |init| ==> init[i] == lines[i];
      FrontMatterState(init, path);
      var p := ParseLines(init, path).value;
      if Scanned(last) {
        SkippedLine(p, last, path);
      }
    }
  }

  /** A file with no verse line, or with no chapter line, records nothing: front matter
      alone gives an empty concordance. */
  lemma FrontMatterOnly(lines: seq<string>, path: string)
    requires (forall i :: 0 <= i < |lines| ==> !IsVerseLine(lines[i])) || (forall i :: 0 <= i < |lines| ==> !IsChapterLine(lines[i]))
    ensures ParseFile(lines, path) == Success(Empty)
  {
    FrontMatterState(lines, path);
  }

  predicate IsDigits(s: string) {
    s != [] && forall i :: 0 <= i < |s| ==> IsDigit(s[i])
  }

  /** What holds of every state the parser reaches in the file at path: the verse is
      empty or a run of digits, every key is a clean word, and every reference comes from
      this file and has a non-negative verse number. */
  ghost predicate WellFormed(p: Progress, path: string) {
    && (p.state.verse == "" || IsDigits(p.state.verse))
    && (forall k :: k in p.conc.entries ==> IsCleanWord(k))
    && (forall k, r :: k in p.conc.entries && r in p.conc.entries[k].refs.refs ==> r.filePath == path && r.verse >= 0)
  }

  lemma LineWellFormed(p: Progress, line: string, path: string)
    requires Valid(p.conc) && WellFormed(p, path) && ProcessLine(p, line, path).Success?
    ensures WellFormed(ProcessLine(p, line, path).value, path)
  {
    var q := ProcessLine(p, line, path).value;
    LineEffect(p, line, path);
    VerseStaysDigits(p.state, line);
    if Recording(p.state, line) {
      RecordedLine(p, line, path);
      WordsOfLineAreClean(line);
      LineRefInFile(p.state, line, path);
      RecordedStepWellFormed(p, q, LineWords(line), path, LineRef(p.state, line, path));
    }
  }

  /** The reference of a line comes from the file, and its verse, a run of digits, is
      not negative. */
  lemma LineRefInFile(st: ParserState, line: string, path: string)
    requires st.verse == "" || IsDigits(st.verse)
    ensures var ref := LineRef(st, line, path);
      ref.Success? ==> ref.value.filePath == path && ref.value.verse >= 0
  {
    VerseStaysDigits(st, line);
    var verse := NextState(st, line).verse;
    if verse != "" {
      DigitsParse(verse);
    }
  }

  /** The step of a recorded line, over its outcome q: clean words added as keys, and at
      most one reference from the file appended to each entry, keep the progress well
      formed. */
  lemma RecordedStepWellFormed(p: Progress, q: Progress, words: seq<string>, path: string, ref: Result<VerseReference, Error>)
    requires WellFormed(p, path)
    requires q.state.verse == "" || IsDigits(q.state.verse)
    requires ref.Success? ==> ref.value.filePath == path && ref.value.verse >= 0
    requires forall w :: w in words ==> IsCleanWord(w)
    requires q.conc.entries.Keys == p.conc.entries.Keys + set w | w in words
    requires forall k :: k in q.conc.entries ==>
               RefsOf(q.conc, k) == RefsOf(p.conc, k) || (ref.Success? && RefsOf(q.conc, k) == RefsOf(p.conc, k) + [ref.value])
    ensures WellFormed(q, path)
  {
    KeysStayClean(p.conc, q.conc, words);
    RefsStayInFile(p.conc, q.conc, ref, path);
  }

  lemma VerseStaysDigits(st: ParserState, line: string)
    requires st.verse == "" || IsDigits(st.verse)
    ensures NextState(st, line).verse == "" || IsDigits(NextState(st, line).verse)
  {
  }

  /** Adding clean words as keys keeps every key clean. */
  lemma KeysStayClean(c: Concordance, c': Concordance, words: seq<string>)
    requires forall k :: k in c.entries ==> IsCleanWord(k)
    requires forall w :: w in words ==> IsCleanWord(w)
    requires c'.entries.Keys == c.entries.Keys + set w | w in words
    ensures forall k :: k in c'.entries ==> IsCleanWord(k)
  {
    forall k | k in c'.entries
      ensures IsCleanWord(k)
    {
      assert k in c.entries.Keys || k in words;
    }
  }

  /** Appending at most one reference from the file to each entry keeps every reference
      from the file. */
  lemma RefsStayInFile(c: Concordance, c': Concordance, ref: Result<VerseReference, Error>, path: string)
    requires forall k, r :: k in c.entries && r in c.entries[k].refs.refs ==> r.filePath == path && r.verse >= 0
    requires ref.Success? ==> ref.value.filePath == path && ref.value.verse >= 0
    requires forall k :: k in c'.entries ==>
               RefsOf(c', k) == RefsOf(c, k) || (ref.Success? && RefsOf(c', k) == RefsOf(c, k) + [ref.value])
    ensures forall k, r :: k in c'.entries && r in c'.entries[k].refs.refs ==> r.filePath == path && r.verse >= 0
  {
    forall k, r | k in c'.entries && r in c'.entries[k].refs.refs
      ensures r.filePath == path && r.verse >= 0
    {
      assert RefsOf(c', k) == c'.entries[k].refs.refs;
      if r !in RefsOf(c, k) {
        assert ref.Success? && r == ref.value;
      }
    }
  }

  /** Every successful parse keeps the well-formedness of its states. */
  lemma {:induction false} ParseLinesWellFormed(lines: seq<string>, path: string)
    requires ParseLines(lines, path).Success?
    ensures WellFormed(ParseLines(lines, path).value, path)
    decreases |lines|
  {
    if lines != [] {
      var init := lines[..|lines| - 1];
      ParseLinesWellFormed(init, path);
      ParseLinesValid(init, path);
      LineWellFormed(ParseLines(init, path).value, lines[|lines| - 1], path);
    }
  }

  /** A parsed file is a well-formed concordance: a valid ordered dict whose entries are
      filed under their own words, whose words are clean, and whose references all come
      from this file. */
  lemma ParsedFileIsClean(lines: seq<string>, path: string)
    requires ParseFile(lines, path).Success?
    ensures var c := ParseFile(lines, path).value;
      && Valid(c) && WordsMatchKeys(c)
      && (forall k :: k in c.entries ==> IsCleanWord(k))
      && (forall k, r :: k in c.entries && r in c.entries[k].refs.refs ==> r.filePath == path && r.verse >= 0)
  {
    ParseLinesValid(lines, path);
    ParseLinesWellFormed(lines, path);
  }

  /** A recorded line with words while the chapter is not an integer aborts the whole
      file with the ValueError of the chapter text. */
  lemma NonNumericChapterAborts(lines: seq<string>, path: string, i: nat)
    requires i < |lines| && ParseLines(lines[..i], path).Success?
    requires var st := ParseLines(lines[..i], path).value.state;
      Recording(st, lines[i]) && LineWords(lines[i]) != [] && ParseInt(NextState(st, lines[i]).chapter).None?
    ensures ParseFile(lines, path) == Failure(NotAnInteger(NextState(ParseLines(lines[..i], path).value.state, lines[i]).chapter))
  {
    var p := ParseLines(lines[..i], path).value;
    LineFailure(p, lines[i], path);
    assert lines[..i + 1][..i] == lines[..i];
    ParseLinesFailureSticks(lines, path, i + 1, NotAnInteger(NextState(p.state, lines[i]).chapter));
  }

  // ---------------------------------------------------------------------------
  // The patterns on sample lines
  // ---------------------------------------------------------------------------

  /** A verse marker with a number, a space and text matches and captures the number. */
  lemma SampleVerse()
    ensures MatchVerse("\\v 12 In\n") == Some("12")
  {
    var rest := "12 In\n";
    assert "\\v 12 In\n"[3..] == rest;
    assert SpanLength(rest, IsDigit) == 2 by {
      assert SpanLength(rest[2..], IsDigit) == 0;
      assert SpanLength(rest[1..], IsDigit) == 1;
    }
    assert rest[..2] == "12";
    var text := "In\n";
    assert rest[3..] == text;
    assert text[..|text| - 1] == "In";
    assert MatchRest(text) == Some("In");
  }

  /** A verse number with nothing after it does not match, so the verse is unchanged. */
  lemma SampleBareVerse()
    ensures MatchVerse("\\v 12") == None
  {
    var rest := "12";
    assert "\\v 12"[3..] == rest;
    assert SpanLength(rest, IsDigit) == 2 by {
      assert SpanLength(rest[2..], IsDigit) == 0;
      assert SpanLength(rest[1..], IsDigit) == 1;
    }
  }

  /** A verse bridge such as `1-2` does not match. */
  lemma SampleBridge()
    ensures MatchVerse("\\v 1-2 text") == None
  {
    var rest := "1-2 text";
    assert "\\v 1-2 text"[3..] == rest;
    assert SpanLength(rest, IsDigit) == 1 by {
      assert SpanLength(rest[1..], IsDigit) == 0;
    }
  }

  /** A chapter marker takes the rest of the line, later markers included, so by
      ChapterLineAlone such a line records none of its words. */
  lemma SampleChapterWithVerse()
    ensures IsChapterLine("\\c 1 \\v 1 Hello world")
    ensures MatchChapter("\\c 1 \\v 1 Hello world") == Some("1 \\v 1 Hello world")
  {
    var x := "1 \\v 1 Hello world";
    assert "\\c 1 \\v 1 Hello world" == ['\\', 'c', ' '] + x;
    MarkerWithoutNewline('c', 'h', x);
  }

  /** A marker line without a newline captures everything after the marker, and is no
      line of any other marker. */
  lemma MarkerWithoutNewline(tag: char, other: char, x: string)
    requires '\n' !in x && other != tag
    ensures MatchMarker(['\\', tag, ' '] + x, tag) == Some(x)
    ensures MatchMarker(['\\', tag, ' '] + x, other) == None
  {
    var line := ['\\', tag, ' '] + x;
    assert line[..3] == ['\\', tag, ' '] && line[..3][1] == tag;
    assert forall i :: 3 <= i < |line| ==> line[i] == x[i - 3];
    assert line[3..] == x;
  }

  /** The first words of Genesis as a verse line that readlines() yields: the number and
      the full stop are dropped and the words come out in order. */
  lemma SampleGenesisVerse()
    ensures LineWords("\\v 1 In the beginning.\n") == ["In", "the", "beginning"]
  {
    var ws := ["In", "the", "beginning"];
    SampleGenesisWords();
    assert "\\v 1 In the beginning.\n" == "\\v " + "1" + " " + "In the beginning" + ".\n";
    VerseOfWords("1", ws);
  }

  lemma SampleGenesisWords()
    ensures JoinWords(["In", "the", "beginning"]) == "In the beginning"
    ensures LetterWords(["In", "the", "beginning"])
  {
    var ws := ["In", "the", "beginning"];
    assert ws[..1] == ["In"] && ws[..2] == ["In", "the"];
  }

  /** A file made of one chapter line records nothing. */
  lemma ChapterLineAlone(line: string, path: string)
    requires IsChapterLine(line)
    ensures ParseFile([line], path) == Success(Empty)
  {
    FrontMatterOnly([line], path);
  }

  /** `\c ` with nothing after it sets the chapter back to empty. */
  lemma SampleEmptyChapter()
    ensures MatchChapter("\\c ") == Some("")
  {
    assert "\\c "[3..] == "";
  }

  // ---------------------------------------------------------------------------
  // A whole sample file
  // ---------------------------------------------------------------------------

  /** A marker line read with its newline captures exactly what follows the marker. */
  lemma MarkerLine(tag: char, x: string)
    requires '\n' !in x
    ensures MatchMarker(['\\', tag, ' '] + x + "\n", tag) == Some(x)
  {
    var line := ['\\', tag, ' '] + x + "\n";
    assert line[..3] == ['\\', tag, ' '];
    assert forall i :: 3 <= i < |line| - 1 ==> line[i] == x[i - 3];
    var r := MatchMarker(line, tag).value;
    assert line[3..] == x + "\n";
    assert line[3..][|x|] == '\n';
    if line[3..] == r + "\n" {
      assert r == (r + "\n")[..|r|] == (x + "\n")[..|x|];
    }
  }

  /** `\v <d> ` followed by letter words and a full stop, d one digit, is a verse line
      numbered d. */
  lemma VerseLineOfWords(d: string, ws: seq<string>)
    requires |d| == 1 && IsDigit(d[0]) && ws != [] && LetterWords(ws)
    ensures var line := "\\v " + d + " " + JoinWords(ws) + ".\n"; IsVerseLine(line) && MatchVerse(line) == Some(d)
  {
    var j := JoinWords(ws);
    var line := "\\v " + d + " " + j + ".\n";
    JoinLetterWords(ws);
    assert line[..3] == "\\v " && line[3] == d[0] && line[4] == ' ';
    assert forall i :: 5 <= i < 5 + |j| ==> line[i] == j[i - 5];
    assert |line| == 7 + |j| && line[5 + |j|] == '.';
    assert VerseShape(line, 1);
    VerseShapesUnique(line);
    assert MatchVerse(line).value == line[3..4] == d;
  }

  /** The keys are the words of verses 1 and 2 of chapter 1 of book, whose words are ws1
      and ws2, and each word's references are the verses it occurs in, verse 1 before
      verse 2. */
  ghost predicate RecordsTwoVerses(c: Concordance, book: string, ws1: seq<string>, ws2: seq<string>) {
    && c.entries.Keys == (set w | w in ws1) + (set w | w in ws2)
    && forall w :: KeySeq(RefsOf(c, w)) ==
         (if w in ws1 then [RefKey(book, 1, 1)] else []) + (if w in ws2 then [RefKey(book, 1, 2)] else [])
  }

  /** The parser just after verse 1 of chapter 1 of book, whose words are ws1: the keys
      are those words, each at that verse alone. */
  ghost predicate AfterVerseOne(p: Progress, book: string, ws1: seq<string>) {
    && p.state == ParserState(book, "1", "1") && Valid(p.conc)
    && p.conc.entries.Keys == (set w | w in ws1)
    && forall w :: KeySeq(RefsOf(p.conc, w)) == if w in ws1 then [RefKey(book, 1, 1)] else []
  }

  /** A file of a heading for book, the chapter line `\c 1` and the verse lines for
      verses 1 and 2, whose words are ws1 and ws2: it parses, its keys are the words of
      the two verses, and each word's references are the verses it occurs in, verse 1
      before verse 2. The heading and the chapter number never become words. */
  lemma TwoVerses(lines: seq<string>, book: string, ws1: seq<string>, ws2: seq<string>, path: string)
    requires |lines| == 4 && MatchHeading(lines[0]) == Some(book) && IsChapterLine(lines[1]) && MatchChapter(lines[1]) == Some("1")
    requires IsVerseLine(lines[2]) && MatchVerse(lines[2]) == Some("1") && LineWords(lines[2]) == ws1
    requires IsVerseLine(lines[3]) && MatchVerse(lines[3]) == Some("2") && LineWords(lines[3]) == ws2
    ensures ParseFile(lines, path).Success? && RecordsTwoVerses(ParseFile(lines, path).value, book, ws1, ws2)
  {
    var l0, l1, l2, l3 := lines[0], lines[1], lines[2], lines[3];
    assert lines == [l0, l1, l2, l3] && lines[..3] == [l0, l1, l2];
    OpeningAndVerse(l0, l1, l2, book, ws1, path);
    var p3 := ParseLines([l0, l1, l2], path).value;
    SecondVerse(p3, l3, book, ws1, ws2, path);
    assert ParseFile(lines, path) == Success(ProcessLine(p3, l3, path).value.conc);
  }

  /** Verse 2 read after verse 1: its words get verse 2 after the references they had. */
  lemma SecondVerse(p: Progress, line: string, book: string, ws1: seq<string>, ws2: seq<string>, path: string)
    requires AfterVerseOne(p, book, ws1)
    requires IsVerseLine(line) && MatchVerse(line) == Some("2") && LineWords(line) == ws2
    ensures ProcessLine(p, line, path).Success? && RecordsTwoVerses(ProcessLine(p, line, path).value.conc, book, ws1, ws2)
  {
    DigitsParse("1");
    DigitsParse("2");
    assert VerseKey(p.state, line) == RefKey(book, 1, 2);
    OnlyVerseOne(p.conc, book, ws1);
    VerseStep(p, line, path, ws2, RefKey(book, 1, 2));
  }

  lemma OnlyVerseOne(c: Concordance, book: string, ws1: seq<string>)
    requires forall w :: KeySeq(RefsOf(c, w)) == if w in ws1 then [RefKey(book, 1, 1)] else []
    ensures forall w :: RefKey(book, 1, 2) !in KeySeq(RefsOf(c, w))
  {
    forall w
      ensures RefKey(book, 1, 2) !in KeySeq(RefsOf(c, w))
    {
      assert KeySeq(RefsOf(c, w)) == if w in ws1 then [RefKey(book, 1, 1)] else [];
    }
  }

  /** The heading, the chapter line and verse 1: the keys are the words of the verse,
      each at that verse alone. */
  lemma OpeningAndVerse(l0: string, l1: string, l2: string, book: string, ws1: seq<string>, path: string)
    requires MatchHeading(l0) == Some(book) && IsChapterLine(l1) && MatchChapter(l1) == Some("1")
    requires IsVerseLine(l2) && MatchVerse(l2) == Some("1") && LineWords(l2) == ws1
    ensures ParseLines([l0, l1, l2], path).Success? && AfterVerseOne(ParseLines([l0, l1, l2], path).value, book, ws1)
  {
    var p2 := Progress(ParserState(book, "1", ""), Empty);
    FileOpening(l0, l1, book, path);
    FirstVerse(p2, l2, book, ws1, path);
    assert [l0, l1, l2][..2] == [l0, l1];
  }

  /** Verse 1 read into the empty concordance: its words get verse 1 alone. */
  lemma FirstVerse(p: Progress, line: string, book: string, ws1: seq<string>, path: string)
    requires p == Progress(ParserState(book, "1", ""), Empty)
    requires IsVerseLine(line) && MatchVerse(line) == Some("1") && LineWords(line) == ws1
    ensures ProcessLine(p, line, path).Success? && AfterVerseOne(ProcessLine(p, line, path).value, book, ws1)
  {
    DigitsParse("1");
    assert VerseKey(p.state, line) == RefKey(book, 1, 1);
    assert Empty.entries.Keys == {};
    forall w
      ensures KeySeq(RefsOf(Empty, w)) == []
    {
    }
    VerseStep(p, line, path, ws1, RefKey(book, 1, 1));
  }

  /** NewVerseRecorded with the line's words and the verse's identity named. */
  lemma VerseStep(p: Progress, line: string, path: string, ws: seq<string>, k: RefKey)
    requires Valid(p.conc) && IsVerseLine(line) && ParseInt(p.state.chapter).Some?
    requires |MatchVerse(line).value| <= MaxStrDigits
    requires LineWords(line) == ws && VerseKey(p.state, line) == k
    requires forall w :: k !in KeySeq(RefsOf(p.conc, w))
    ensures ProcessLine(p, line, path).Success?
    ensures ProcessLine(p, line, path).value.state == p.state.(verse := MatchVerse(line).value)
    ensures Valid(ProcessLine(p, line, path).value.conc)
    ensures ProcessLine(p, line, path).value.conc.entries.Keys == p.conc.entries.Keys + set w | w in ws
    ensures forall w :: KeySeq(RefsOf(ProcessLine(p, line, path).value.conc, w)) == KeySeq(RefsOf(p.conc, w)) + if w in ws then [k] else []
  {
    NewVerseRecorded(p, line, path);
    LineValid(p, line, path);
  }

  /** The heading and the chapter line set the book and the chapter and record nothing. */
  lemma FileOpening(h: string, ch: string, book: string, path: string)
    requires MatchHeading(h) == Some(book) && IsChapterLine(ch) && MatchChapter(ch) == Some("1")
    ensures ParseLines([h, ch], path) == Success(Progress(ParserState(book, "1", ""), Empty))
  {
    var p1 := Progress(ParserState(book, "", ""), Empty);
    assert ParseLines([h], path) == Success(p1) by {
      assert [h][..0] == [];
      HeadingLine(Progress(Initial, Empty), h, path);
    }
    assert [h, ch][..1] == [h];
    ChapterLine(p1, ch, path);
  }

  /** A book heading, chapter 1 and verses 1 and 2, each verse a sentence of letter words. */
  function TwoVerseLines(book: string, ws1: seq<string>, ws2: seq<string>): seq<string> {
    ["\\h " + book + "\n", "\\c 1\n", "\\v " + "1" + " " + JoinWords(ws1) + ".\n", "\\v " + "2" + " " + JoinWords(ws2) + ".\n"]
  }

  /** Written out with a heading and two sentences of letter words, such a file records
      each word at the verses it occurs in. */
  lemma TwoVerseFile(book: string, ws1: seq<string>, ws2: seq<string>, path: string)
    requires '\n' !in book && ws1 != [] && ws2 != [] && LetterWords(ws1) && LetterWords(ws2)
    ensures ParseFile(TwoVerseLines(book, ws1, ws2), path).Success?
    ensures RecordsTwoVerses(ParseFile(TwoVerseLines(book, ws1, ws2), path).value, book, ws1, ws2)
  {
    MarkerLine('h', book);
    MarkerLine('c', "1");
    assert "\\c 1\n" == ['\\', 'c', ' '] + "1" + "\n";
    assert MatchHeading("\\c 1\n").None?;
    VerseLineOfWords("1", ws1);
    VerseLineOfWords("2", ws2);
    VerseOfWords("1", ws1);
    VerseOfWords("2", ws2);
    TwoVerses(TwoVerseLines(book, ws1, ws2), book, ws1, ws2, path);
  }

  /** The opening of Genesis read from gen.usfm: "the" and "earth" are at Genesis 1:1
      and then 1:2, "In" only at 1:1, and neither the book name nor the chapter
      number is a key. */
  lemma SampleGenesisFile(path: string)
    ensures ParseFile(GenesisLines(), path).Success?
    ensures KeySeq(RefsOf(ParseFile(GenesisLines(), path).value, "the")) == [RefKey("Genesis", 1, 1), RefKey("Genesis", 1, 2)]
    ensures KeySeq(RefsOf(ParseFile(GenesisLines(), path).value, "earth")) == [RefKey("Genesis", 1, 1), RefKey("Genesis", 1, 2)]
    ensures KeySeq(RefsOf(ParseFile(GenesisLines(), path).value, "In")) == [RefKey("Genesis", 1, 1)]
  {
    GenesisLetterWords();
    GenesisVerse1Words();
    GenesisVerse2Words();
    TwoVerseFile("Genesis", GenesisVerse1(), GenesisVerse2(), path);
    var c := ParseFile(GenesisLines(), path).value;
    InBothVerses(c, "Genesis", GenesisVerse1(), GenesisVerse2(), "the");
    InBothVerses(c, "Genesis", GenesisVerse1(), GenesisVerse2(), "earth");
    OnlyInVerseOne(c, "Genesis", GenesisVerse1(), GenesisVerse2(), "In");
  }

  lemma InBothVerses(c: Concordance, book: string, ws1: seq<string>, ws2: seq<string>, x: string)
    requires RecordsTwoVerses(c, book, ws1, ws2) && x in ws1 && x in ws2
    ensures KeySeq(RefsOf(c, x)) == [RefKey(book, 1, 1), RefKey(book, 1, 2)]
  {
    assert KeySeq(RefsOf(c, x)) == [RefKey(book, 1, 1)] + [RefKey(book, 1, 2)];
  }

  lemma OnlyInVerseOne(c: Concordance, book: string, ws1: seq<string>, ws2: seq<string>, x: string)
    requires RecordsTwoVerses(c, book, ws1, ws2) && x in ws1 && x !in ws2
    ensures KeySeq(RefsOf(c, x)) == [RefKey(book, 1, 1)]
  {
    assert KeySeq(RefsOf(c, x)) == [RefKey(book, 1, 1)] + [];
  }

  /** In the same file, the book name of the heading and the chapter number are not keys. */
  lemma SampleGenesisNotWords(path: string)
    ensures ParseFile(GenesisLines(), path).Success?
    ensures "Genesis" !in ParseFile(GenesisLines(), path).value.entries
    ensures "1" !in ParseFile(GenesisLines(), path).value.entries
  {
    GenesisLetterWords();
    GenesisVerse1Words();
    GenesisVerse2Words();
    TwoVerseFile("Genesis", GenesisVerse1(), GenesisVerse2(), path);
    var c := ParseFile(GenesisLines(), path).value;
    NotAVerseWord(c, "Genesis", GenesisVerse1(), GenesisVerse2(), "Genesis");
    NotAVerseWord(c, "Genesis", GenesisVerse1(), GenesisVerse2(), "1");
  }

  lemma NotAVerseWord(c: Concordance, book: string, ws1: seq<string>, ws2: seq<string>, x: string)
    requires RecordsTwoVerses(c, book, ws1, ws2) && x !in ws1 && x !in ws2
    ensures x !in c.entries
  {
  }

  /** The lines of gen.usfm: the heading, chapter 1, and the first two verses of Genesis. */
  function GenesisLines(): seq<string> {
    TwoVerseLines("Genesis", GenesisVerse1(), GenesisVerse2())
  }

  lemma GenesisLetterWords()
    ensures LetterWords(GenesisVerse1()) && LetterWords(GenesisVerse2())
  {
  }

  lemma GenesisVerse1Words()
    ensures "the" in GenesisVerse1() && "earth" in GenesisVerse1() && "In" in GenesisVerse1()
    ensures "Genesis" !in GenesisVerse1() && "1" !in GenesisVerse1()
  {
    var ws := GenesisVerse1();
    assert ws[0] == "In" && ws[1] == "the" && ws[9] == "earth";
  }

  lemma GenesisVerse2Words()
    ensures "the" in GenesisVerse2() && "earth" in GenesisVerse2()
    ensures "In" !in GenesisVerse2() && "Genesis" !in GenesisVerse2() && "1" !in GenesisVerse2()
  {
    var ws := GenesisVerse2();
    assert ws[1] == "the" && ws[2] == "earth";
  }

  /** Genesis 1:1, "In the beginning God created the heavens and the earth.", as words. */
  function GenesisVerse1(): seq<string> {
    ["In", "the", "beginning", "God", "created", "the", "heavens", "and", "the", "earth"]
  }

  /** Genesis 1:2, "Now the earth was formless and empty.", as words. */
  function GenesisVerse2(): seq<string> {
    ["Now", "the", "earth", "was", "formless", "and", "empty"]
  }
}
