# USFM word concordance, modelled in Dafny

This Dafny project models the core of `analyzer.py`. The analyzer reads USFM scripture files line by line and builds a concordance: a dictionary from each distinct word to a `WordEntry`, which holds that word's verse references in the order they were first seen.

- `process_file` parses one file. It keeps the current book (`\h`), chapter (`\c`) and verse (`\v`). It ignores every line that comes before both a chapter and a verse are known. On every other line it removes:
  1. footnotes;
  2. USFM markers;
  3. digit runs;
  4. punctuation.

  It then strips and splits what is left, and records each word at a `VerseReference`. Two references are equal when their book, chapter and verse are equal; the file path and the line text do not count.
- `process_file_or_dir` parses every file of a directory. It then collates their concordances, in file order, into one master concordance.

The project has six modules, one per file:

| file | module | what it holds |
|---|---|---|
| `wrappers.dfy` | `Wrappers` | `Option` and `Result` |
| `text.dfy` | `Text` | the regular expressions and Python string built-ins the analyzer uses, written character by character: `FOOTNOTE_REGEX`, `USFM_MARKER_REGEX`, `NUMBER_REGEX`, `PUNCTUATION_REGEX`, `str.strip`, `str.split`, `int`, `str` |
| `refs.dfy` | `Refs` | `VerseReference`, with its `__eq__`, `__hash__` and `__str__`. Also the ordered reference set. In the source that set is a `dict[VerseReference, None]`; here it is a sequence beside an index of identities. `Dedup` is its reference definition. |
| `concordance.dfy` | `Concordances` | `WordEntry` and the insertion-ordered `dict[str, WordEntry]`, kept as a key order beside a map. `Record` is the body of the inner word loop. |
| `parser.dfy` | `Parser` | `process_file`, in two forms: the fold `ParseLines`/`ParseFile` that specifies it, and the method `ProcessFile` that mirrors its loops. The method is proved equal to the fold. |
| `merger.dfy` | `Merger` | the collation loop and `process_file_or_dir`. The folds `MergeEntries`/`MergeFiles` specify them, and each is checked against a reference definition (`FirstSeen`, `KeysIn`, `RefsIn` + `Dedup`). The methods `AddRefs`, `MergeInto`, `Collate` and `ProcessFileOrDir` mirror the source's loops and are proved equal to the folds. |

In several places the code does something other than a reader of its names and comments might expect. The model follows the code:

- **Markers with nothing after them reset the state.** One might expect the current book, chapter and verse, once set, to persist for the rest of the file. In the code, a line `\c ` or `\h ` followed by nothing sets the chapter, or the book, back to `""`, because `(.*)` matches the empty string. After an empty `\c ` line nothing more is recorded until another chapter line arrives (`Parser.SampleEmptyChapter`, `Parser.SkippedLine`). An empty `\h ` line only empties the book: the words that follow are still recorded, at references whose book is `""` (`Parser.HeadingLine`).
- **A chapter line is never scanned for words.** A line such as `\c 1 \v 1 Hello world` might be expected to record "Hello" at 1:1. In the code, CHAPTER_REGEX takes the rest of such a line as the chapter text, so the line's words are never recorded (`Parser.SampleChapterWithVerse`, `Parser.ChapterLineAlone`). Nothing raises while the verse is still empty. Once a later line is recorded and yields a word, `int()` raises on that chapter text and the file is aborted (`Parser.NonNumericChapterAborts`).
- **Master entries alias the files' entries.** One might expect the master concordance to share no entry with the files' concordances. In the code, a word first seen in a file is entered into the master as that file's own `WordEntry` object, and the master then extends it in place.
- **A bad chapter or verse raises only when a word is recorded.** `int()` runs only when a reference is built, so a non-numeric chapter raises only on the first word recorded after it, not at the `\c` line itself.

## Model

A function that only computes, such as `Text.ParseInt` or `Parser.ProcessLine`, carries no contract of its own. The rows of the lemmas and methods about it name it at the head of their third column.

| member | source | states |
|---|---|---|
| Refs.Equals | analyzer.py:41-48 | `__eq__`: two references are equal exactly when their (book, chapter, verse) identities are equal |
| Refs.EqualsIsEquivalence | analyzer.py:41-48 | reference equality is reflexive, symmetric and transitive, so it can serve as a dict key equality |
| Refs.EqualsIgnoresPathAndText | analyzer.py:44-48 | changing a reference's file path or text never changes what it equals |
| Refs.EqualRefsHashEqually | analyzer.py:50-52 | `Hash` (`__hash__`): equal references have equal hashes, whatever the tuple hash is |
| Refs.DisplayAgreesWithEquals | analyzer.py:37-39 | `Display` (`__str__`): within one book, two references print the same "Book c:v" text exactly when they are equal |
| Refs.Contains | analyzer.py:146 | in a well-formed reference set, membership holds exactly when some stored reference equals the one asked about |
| Refs.Singleton | analyzer.py:140 | `{verse_ref: None}` is a well-formed set holding exactly that reference |
| Refs.Add | analyzer.py:146-147 | a reference goes at the end unless an equal one is present; the identity index grows by exactly its key |
| Refs.AddPresentUnchanged | analyzer.py:146-147 | adding a reference equal to one already present changes nothing |
| Refs.AddKeepsOrder | analyzer.py:62-79 | adding keeps the set well formed, keeps the old references as a prefix, appends at most one reference, and adds exactly the new identity |
| Refs.DedupProperties | analyzer.py:62-79 | `Dedup`, the reference definition of an ordered set, keeps one reference per identity, loses no identity, and invents no reference |
| Refs.DedupOfDistinct | analyzer.py:62-79 | a sequence with no two equal references is its own deduplication |
| Refs.DedupPrefix | analyzer.py:62-79 | what later references contribute never disturbs the order already established |
| Refs.AddAllIsDedup | analyzer.py:190-192 | `AddAll` (the loop over a file entry's references): filling a set that holds Dedup(x) from s, one reference at a time, gives exactly Dedup(x + s), and keeps it well formed |
| Refs.AddAllKeepsOrder | analyzer.py:190-192 | `AddAll` keeps a well-formed set well formed and keeps what it held as a prefix |
| Concordances.EntriesAtSpec | analyzer.py:186 | `Values` (`.values()`): one entry per key, in key insertion order |
| Concordances.Record | analyzer.py:138-147 | a new word is appended to the key order with an entry holding just the reference; a known word has the reference added unless an equal one is present; every other entry is unchanged |
| Concordances.RecordDuplicateUnchanged | analyzer.py:144-147 | recording a word at a verse it already has leaves the whole concordance unchanged |
| Concordances.RecordValid | analyzer.py:138-147 | recording keeps the dict well formed and keeps every entry filed under its own word (`entries[k].word == k`) |
| Concordances.RecordKeepsOrder | analyzer.py:138-147 | recording never reorders or removes a key or a reference, and the only reference it can add is the recorded one |
| Concordances.RecordHolds | analyzer.py:138-147 | after recording, the word holds a reference equal to the recorded one |
| Text.SpanLength | analyzer.py:20 | the length of the longest leading run that satisfies a class: every character before it satisfies the class, and the next one does not |
| Text.TrailLength | analyzer.py:124 | the length of the longest trailing run that satisfies a class |
| Text.ReplaceRuns | analyzer.py:121-123 | `re.sub` of a one-class pattern `[...]+` by a space never lengthens the text, and leaves only spaces and input characters outside the class |
| Text.ReplaceRunsIdentity | analyzer.py:121 | a string with no character of the class passes a run-replacement unchanged |
| Text.ReplaceRunsIdempotent | analyzer.py:121-123 | a second run-replacement changes nothing |
| Text.ReplaceRunsAppend | analyzer.py:121-123 | across a boundary that no run crosses, the replacement works piece by piece |
| Text.ReplaceRunsLeadingRun | analyzer.py:121-123 | a run of the class in front of text that does not start with the class becomes exactly one space |
| Text.ReplaceRunsWholeRun | analyzer.py:121-123 | text that is one run of the class, such as a run at the very end of a line, becomes one space |
| Text.ReplaceRunsSpaceFront | analyzer.py:121-123 | a leading space outside the class is copied through |
| Text.RemoveNumbers | analyzer.py:121 | after NUMBER_REGEX.sub no digit is left, and every character is a space or comes from the input |
| Text.RemovePunctuation | analyzer.py:123 | after PUNCTUATION_REGEX.sub no punctuation is left, and every character is a space or comes from the input |
| Text.RemoveMarkers | analyzer.py:120 | USFM_MARKER_REGEX.sub never lengthens the text, and every character is a space or comes from the input |
| Text.RemoveMarkersComplete | analyzer.py:120 | after USFM_MARKER_REGEX.sub, no backslash is followed by a word character, so the pattern would match nothing |
| Text.RemoveMarkersNoBackslash | analyzer.py:120 | text without a backslash holds no marker and passes USFM_MARKER_REGEX.sub unchanged |
| Text.RemoveMarkersAppend | analyzer.py:120 | USFM_MARKER_REGEX.sub works piece by piece across a boundary that no marker crosses |
| Text.RemoveMarkersInline | analyzer.py:120 | an inline marker such as `\w` or `\add` becomes one space, and the text on either side is cleaned as if it were not there |
| Text.FindClose | analyzer.py:21 | a found close `\f*` lies at or after the search start and inside the text |
| Text.FindCloseIsFirstClose | analyzer.py:21 | the lazy `.*?` finds the first close with no newline before it, and finds none exactly when a newline precedes every close |
| Text.RemoveFootnotes | analyzer.py:119 | the output starts with a space or with the input's first character |
| Text.RemoveFootnotesComplete | analyzer.py:119 | after FOOTNOTE_REGEX.sub no footnote is left that the pattern would match |
| Text.RemoveFootnotesNoBackslash | analyzer.py:119 | text without a backslash holds no footnote and passes FOOTNOTE_REGEX.sub unchanged |
| Text.CloseSurvives | analyzer.py:119 | removing footnotes never creates a reachable close that the input did not have |
| Text.OpenerWithoutClose | analyzer.py:119 | an opener `\f` with no reachable close is kept, and still has no close afterwards |
| Text.UnclosedOpenerKept | analyzer.py:119 | an unclosed opener is copied through unchanged |
| Text.FindCloseShift | analyzer.py:21 | searching for a close past a prefix is searching the rest |
| Text.TrimStartSpan | analyzer.py:124 | trimming the front removes exactly the longest leading run of the class |
| Text.TrimEndTrail | analyzer.py:124 | trimming the back removes exactly the longest trailing run of the class |
| Text.StripIsSlice | analyzer.py:124 | `Strip` (`str.strip()`, or int()'s own trimming with the class IsIntSpace): the result is the slice that starts after the leading run of the class, and only characters of the class follow it |
| Text.StripEnds | analyzer.py:124 | what stripping returns neither starts nor ends with a character of the class |
| Text.StripSpec | analyzer.py:124 | stripping removes exactly the leading and trailing run of the class: the result is a slice of the input, has ends outside the class, and only characters of the class surround it |
| Text.StripUnchanged | analyzer.py:131 | `word.strip()`: a string that neither starts nor ends with a character of the class is its own strip |
| Text.SplitWords | analyzer.py:129 | `Split` (`str.split()`): every word is non-empty, contains no whitespace, and keeps any property that every non-space character of the input has |
| Text.SplitWord | analyzer.py:129 | a non-empty run without whitespace splits into itself alone |
| Text.SplitAllSpace | analyzer.py:129 | whitespace alone splits into no word |
| Text.SplitAtSpace | analyzer.py:129 | a whitespace character separates: the words of a + [c] + b are the words of a followed by the words of b |
| Text.SplitSpacePrefix | analyzer.py:129 | leading whitespace adds no word |
| Text.SplitSpaceSuffix | analyzer.py:129 | trailing whitespace adds no word |
| Text.SplitIgnoresStrip | analyzer.py:124-129 | stripping before splitting changes nothing: `line.strip().split() == line.split()` |
| Text.SplitJoinWords | analyzer.py:129 | split() undoes `" ".join()` on words that are non-empty and hold no whitespace |
| Text.DigitsAreGroups | analyzer.py:135 | a non-empty run of digits has the literal form int() accepts; the digit limit is a separate condition |
| Text.DigitsParse | analyzer.py:135 | `ParseInt` (`int()`): the digits the verse pattern captures convert to their decimal value when there are at most 4300 of them (`sys.int_info.default_max_str_digits`), and raise otherwise |
| Text.NoDigitsFail | analyzer.py:135 | `ParseInt`: int() of text with no digit raises (returns None) |
| Text.MinusSignParse | analyzer.py:135 | `ParseInt`: stripped text that starts with a minus sign converts to the negated value of what follows when that is a valid literal of at most 4300 digits, and raises otherwise |
| Text.NegativeDigitsParse | analyzer.py:135 | `ParseInt`: a minus sign followed by at most 4300 digits gives the negated value, and more digits raise |
| Text.SeparatorIsNotIntSpace | analyzer.py:124-135 | `ParseInt` skips less whitespace than strip(): `"1\x1c"` strips to "1", yet int() raises on it |
| Text.NatToString | analyzer.py:39 | str() of a natural number is a non-empty run of digits |
| Text.IntToString | analyzer.py:39 | str() of an integer is digits, with an optional leading minus sign |
| Text.NatToStringValue | analyzer.py:39 | the digits str() prints spell the number |
| Text.IntToStringRoundTrip | analyzer.py:39 | int(str(n)) == n for every integer n of at most 4300 digits, and int() raises on the digits of a longer one |
| Text.IntToStringInjective | analyzer.py:39 | str() prints different integers differently |
| Parser.MatchRest | analyzer.py:18-20 | `(.*)$` matches exactly when no newline comes before the last character, and captures the text without its one final newline |
| Parser.MatchMarker | analyzer.py:18-19 | `MatchHeading` and `MatchChapter` (`^\\h (.*)$`, `^\\c (.*)$`): the line matches exactly when it starts with the backslash, the letter and a space and holds no newline but a final one; the capture is the rest of the line without that newline |
| Parser.MarkerWithoutNewline | analyzer.py:98-107 | a marker line without a newline captures everything after the marker, and matches no other marker |
| Parser.MarkerLine | analyzer.py:98-107 | a marker line read with its newline captures exactly the text after the marker |
| Parser.MatchVerse | analyzer.py:20 | a verse line is `\v `, then a non-empty run of digits, which is captured, then a space, then the rest of the line |
| Parser.MakeRef | analyzer.py:134-136 | building a reference succeeds exactly when both chapter and verse convert, with that identity, path and text; otherwise it raises on the chapter first, then on the verse |
| Parser.ProcessFile | analyzer.py:82-156 | the method with process_file's loops returns the fold ParseFile over the lines |
| Parser.RecordLine | analyzer.py:129-147 | the method with the inner loop over words returns the fold RecordWords over them |
| Parser.RecordWordsFailureSticks | analyzer.py:130-136 | `RecordWords`: once a word raises, the rest of the line cannot undo it |
| Parser.ParseLinesFailureSticks | analyzer.py:95-136 | `ParseLines`: once a line raises, the rest of the file cannot undo it |
| Parser.RecordWordsValid | analyzer.py:130-147 | recording the words of a line keeps the dict well formed and keeps every entry filed under its own word |
| Parser.LineValid | analyzer.py:97-147 | `ProcessLine`: every line keeps the dict well formed and keeps every entry filed under its own word |
| Parser.ParseLinesValid | analyzer.py:88-147 | every concordance the parser builds is a well-formed dict filed by word |
| Parser.WordsOfLineAreClean | analyzer.py:119-133 | `LineWords`: every word split out of a cleaned line is non-empty, with no whitespace, digit or punctuation, and strip() leaves it as it is |
| Parser.PlainVerseText | analyzer.py:110-129 | `DisplayText` and `LineWords` of a verse line whose text has no backslash and no digit: the marker and the number become four spaces, and the words are the text's words once punctuation is removed |
| Parser.VerseDisplayText | analyzer.py:119-122 | `DisplayText`: in such a verse line the marker and the number become spaces and the text is kept |
| Parser.SpacedWords | analyzer.py:123-129 | spaces in front of a text add no word, through punctuation removal, strip() and split() |
| Parser.VerseOfWords | analyzer.py:110-129 | a verse line whose text is letter words joined by single spaces and closed by a full stop yields exactly those words, in order |
| Parser.JoinLetterWords | analyzer.py:129 | joining letter words gives letters and single spaces, ending in a letter |
| Parser.SentenceText | analyzer.py:119-123 | letters and spaces closed by a full stop hold no backslash and no digit, and punctuation removal turns just the full stop into a space |
| Parser.FullStopRemoved | analyzer.py:123 | a closing full stop becomes a space |
| Parser.KeptStrippedWords | analyzer.py:130-133 | `KeptWords`: when strip() leaves every word alone and none is empty, the recorded words are all of them |
| Parser.RecordWordsGrow | analyzer.py:130-147 | recording the words of a line never reorders or removes a key or a reference |
| Parser.RecordWordsKeys | analyzer.py:130-141 | `RecordWords` and `RecordWord`: the keys a line adds are exactly its kept words |
| Parser.RecordWordsAt | analyzer.py:134-147 | after a line with kept words is recorded, building the reference succeeded, and every kept word holds it |
| Parser.RecordWordsNewRefs | analyzer.py:139-147 | a line gives each word at most one new reference, the line's own, appended after the ones it had |
| Parser.RecordWordsOthers | analyzer.py:130-147 | a word the line does not keep keeps exactly the references it had |
| Parser.RecordWordsFails | analyzer.py:130-136 | a line raises exactly when its reference cannot be built and some word is kept, and it raises the conversion error |
| Parser.HeadingLine | analyzer.py:98-101 | a heading line sets the book and changes nothing else |
| Parser.ChapterLine | analyzer.py:104-107 | a chapter line sets the chapter and changes nothing else |
| Parser.LineEffect | analyzer.py:97-126 | `ProcessLine` and `NextState`: every line leaves the state NextState gives; a line that is not recorded leaves the concordance unchanged; no line reorders or removes a key or a reference |
| Parser.RecordedLine | analyzer.py:118-147 | a recorded line adds exactly its words as keys; each of them holds the line's reference; every key gains at most that one reference, at the end; every other word keeps its references |
| Parser.LineFailure | analyzer.py:134-136 | a recorded line with words raises exactly when the chapter or the verse does not convert, and raises the chapter's error first |
| Parser.VerseLine | analyzer.py:110-147 | a verse line sets the verse to its number, which converts when it has at most 4300 digits; with a numeric chapter its words are then still recorded, each at that chapter and verse |
| Parser.LongVerseNumberAborts | analyzer.py:110-136 | a verse number of more than 4300 digits, followed by words under a numeric chapter, makes the line raise ValueError on that number |
| Parser.KeySeq | analyzer.py:62-79 | the identities of a word's references, one per reference, in order |
| Parser.NewVerseRecorded | analyzer.py:110-147 | a verse line at a new verse of at most 4300 digits under a numeric chapter succeeds, sets the verse, adds its words as keys, and appends that verse's identity to exactly the words of the line |
| Parser.UnmatchedVerseLine | analyzer.py:110-113 | a line that does not match the verse pattern leaves the verse unchanged |
| Parser.SkippedLine | analyzer.py:115-116 | while the chapter or the verse is empty, a scanned line records nothing |
| Parser.FrontMatterState | analyzer.py:90-116 | a file with no verse line, or with no chapter line, parses to an empty concordance, with the missing part of the state still empty |
| Parser.FrontMatterOnly | analyzer.py:90-116 | front matter alone gives an empty concordance |
| Parser.LineWellFormed | analyzer.py:97-147 | each line keeps the state well formed: the verse is empty or digits, every key is a clean word, every reference comes from this file |
| Parser.LineRefInFile | analyzer.py:134-136 | a line's reference comes from the file being parsed, and its verse number is not negative |
| Parser.RecordedStepWellFormed | analyzer.py:129-147 | adding clean words as keys, with at most one reference from the file per entry, keeps the state well formed |
| Parser.VerseStaysDigits | analyzer.py:110-112 | the current verse is always empty or a run of digits |
| Parser.KeysStayClean | analyzer.py:139-141 | adding clean words as keys keeps every key clean |
| Parser.RefsStayInFile | analyzer.py:134-147 | appending references from the file keeps every reference from the file |
| Parser.ParseLinesWellFormed | analyzer.py:95-147 | every successful parse keeps the state well formed |
| Parser.ParsedFileIsClean | analyzer.py:82-156 | `ParseFile`: a parsed file is a well-formed dict filed by word, with only clean words as keys and only its own references |
| Parser.NonNumericChapterAborts | analyzer.py:134-136 | a recorded line with words under a non-numeric chapter aborts the whole file with that chapter's ValueError |
| Parser.SampleVerse | analyzer.py:20 | `\v 12 In` matches and captures "12" |
| Parser.SampleBareVerse | analyzer.py:20 | `\v 12` with nothing after it does not match |
| Parser.SampleBridge | analyzer.py:20 | a verse bridge `\v 1-2 text` does not match |
| Parser.SampleChapterWithVerse | analyzer.py:19 | `\c 1 \v 1 Hello world` is a chapter line, and captures the whole rest of the line as the chapter |
| Parser.SampleGenesisVerse | analyzer.py:110-129 | `\v 1 In the beginning.` read with its newline yields the words "In", "the", "beginning", in order |
| Parser.SampleGenesisWords | analyzer.py:129 | "In the beginning" is those three letter words joined by spaces |
| Parser.ChapterLineAlone | analyzer.py:104-107 | a file made of one chapter line gives an empty concordance, whatever else the line contains |
| Parser.SampleEmptyChapter | analyzer.py:19 | `\c ` with nothing after it captures the empty chapter |
| Parser.VerseLineOfWords | analyzer.py:110-112 | a one-digit verse line of letter words is scanned, and matches with that digit as its number |
| Parser.TwoVerses | analyzer.py:82-156 | a heading, `\c 1` and verses 1 and 2 parse to a concordance whose keys are the words of the two verses, and whose every word holds verse 1:1 if verse 1 has it, then 1:2 if verse 2 has it, and nothing else |
| Parser.TwoVerseFile | analyzer.py:82-156 | the same for the lines `\h <book>`, `\c 1`, `\v 1 <words>.` and `\v 2 <words>.`, for any book and any letter words |
| Parser.SampleGenesisFile | analyzer.py:82-156 | a file with Genesis 1:1-2 parses; "the" and "earth" hold Genesis 1:1 then Genesis 1:2, and "In" holds just Genesis 1:1 |
| Parser.SampleGenesisNotWords | analyzer.py:98-121 | in that file's concordance there is no entry for "Genesis" or "1" |
| Merger.MergeEntryValid | analyzer.py:187-194 | `MergeEntry`: merging one file entry keeps the master well formed and filed by word |
| Merger.MergeEntriesValid | analyzer.py:186-194 | `MergeEntries`: merging a file's entries keeps the master well formed and filed by word |
| Merger.ValuesValid | analyzer.py:186 | `Values`: every value of a well-formed file concordance holds a well-formed reference set |
| Merger.MergeFilesValid | analyzer.py:185-194 | `MergeFiles`: the master is a well-formed dict filed by word |
| Merger.WordsOfEntriesAt | analyzer.py:186-187 | in a dict filed by word, the words of the values are the keys, in order |
| Merger.MergeEntriesKeys | analyzer.py:186-194 | merging entries adds exactly their words as keys |
| Merger.MergeFilesKeys | analyzer.py:185-194 | the master's keys are the union of the files' keys |
| Merger.KeysInSpec | analyzer.py:185-194 | a word is in the union of the files' keys exactly when some file has it |
| Merger.MergedKeys | analyzer.py:185-194 | a word is a master key exactly when some file has it |
| Merger.FirstSeenProperties | analyzer.py:185-194 | the first-appearance order lists each word once, and exactly the words given |
| Merger.MergeEntriesOrder | analyzer.py:186-194 | merging entries extends the master's first-appearance order by their words |
| Merger.MergeFilesOrder | analyzer.py:185-194 | the master's key order is the files' keys in order of first appearance |
| Merger.MergeEntryRefs | analyzer.py:187-194 | `MergeEntry`: merging one entry gives its word the deduplicated union, in first-seen order, of what it had and of the entry's references |
| Merger.MergeEntriesRefs | analyzer.py:186-194 | `MergeEntries` and `MergeFile`: merging entries gives each word the deduplicated union of what it had and of the entries' references |
| Merger.RefsForEntriesAt | analyzer.py:186-187 | in a dict filed by word, the references for w among the values are w's own |
| Merger.MergeFilesRefs | analyzer.py:185-194 | each master word holds the deduplicated union, in first-seen order, of that word's references in the files, file after file |
| Merger.RefsInAbsent | analyzer.py:185-194 | files that lack w contribute no reference for it |
| Merger.RefsInPrefix | analyzer.py:185-194 | the references of the earlier files are a prefix of the references of all the files |
| Merger.RefsOfDistinct | analyzer.py:62-79 | no two references of one word in a well-formed dict are equal |
| Merger.RefsInFirst | analyzer.py:185-194 | up to the first file that has w, the references for w are that file's |
| Merger.FirstFileRefsLead | analyzer.py:185-194 | deduplication keeps the first file's references for w, in their order, at the front |
| Merger.FirstFileRefsFirst | analyzer.py:185-194 | the references of the first file with a word are a prefix of that word's master references |
| Merger.AddRefs | analyzer.py:190-192 | the method with the loop over a file entry's references returns the fold AddAll |
| Merger.MergeInto | analyzer.py:186-194 | the method with the loop over one file's values returns the fold MergeFile |
| Merger.MergeNextValue | analyzer.py:186 | merging the values of the first j + 1 keys is merging the first j, then the value at key j |
| Merger.Collate | analyzer.py:185-194 | the method with the nested collation loops returns the fold MergeFiles |
| Merger.ParseAllResults | analyzer.py:177 | `ParseAll` (`executor.map`): when every file parses, the results are the files' concordances, in file order |
| Merger.ParseAllClean | analyzer.py:177 | every parsed concordance of a directory is a well-formed dict filed by word |
| Merger.ParseAllFirstFailure | analyzer.py:177 | the first file that fails to parse, in file order, is what the directory raises |
| Merger.ParseAllSucceeds | analyzer.py:177 | a list of files that each parse parses |
| Merger.ParseAllFailureSticks | analyzer.py:177 | once a file raises, the files after it cannot undo it |
| Merger.AnalyzeIsClean | analyzer.py:159-204 | `Analyze`: what the analyzer returns for any path is a well-formed dict filed by word |
| Merger.ProcessFileOrDir | analyzer.py:159-204 | the method with process_file_or_dir's loops returns the specification Analyze |

## Left out

- Reading files, UTF-8 decoding, logging and timing are left out. A file is given as its path and the list of lines `readlines()` yields.
- File discovery (`rglob` of `*.usfm`/`*.USFM` and the sort) is left out. A directory is given as its files, already found and sorted. Whether the path is a file, a directory or neither is given by the `Target` datatype.
- The `ProcessPoolExecutor` is modelled as a sequential map in file order (`Merger.ParseAll`). The result list and the first exception in list order are the same either way. Parallelism itself is not modelled.
- The regular-expression classes `\d` and `\w` are modelled on ASCII only. Python's versions also match other Unicode digits and letters.
- `str.isspace()` is modelled by a fixed list of the Unicode whitespace characters. `int()` skips only part of that list around its literal: the ASCII whitespace and the non-ASCII whitespace characters, but not the separators U+001C..U+001F (`Text.IsIntSpace`, `Text.SeparatorIsNotIntSpace`). `int()` accepts only ASCII digits here, where Python also accepts other Unicode decimal digits.
- Text.IntToString: `str()` has no digit limit here, while CPython's `str()` raises ValueError on an integer of more than 4300 digits. `Refs.Display` inherits this. Every number the parser stores comes from `int()` and so has at most 4300 digits, so the limit is never reached on a reference the analyzer builds.
- The `NotImplemented` branch of `VerseReference.__eq__` is left out. Only references are ever compared with references.
- Python's tuple hash is left out: `Refs.Hash` takes it as a parameter.
- The in-place update of a `WordEntry`'s reference dict is modelled by value: a new entry replaces the old one in its map.
  - Because a file's entry is put into the master as the same object, the source's master aliases that file's entry and later extends it in place.
  - Nothing reads a file's concordance after the merge, so this aliasing is not observable and is not modelled.
- The GUI, settings, the git integration and the worker thread are not part of this model.
- Text.RemoveFootnotes: its own contract states only how the output begins. What the pass achieves is proved in Text.RemoveFootnotesComplete, Text.OpenerWithoutClose and Text.CloseSurvives.
