/** process_file_or_dir: one file is parsed on its own; a directory's files are parsed in
    their sorted order and their concordances collated, one after another, into a
    master concordance. */
module Merger {
  import opened Wrappers
  import Text
  import opened Refs
  import opened Concordances
  import opened Parser

  // ---------------------------------------------------------------------------
  // The collation, as folds
  // ---------------------------------------------------------------------------

  /** One pass of the loop over a file's values: a word the master lacks gets the file's
      entry whole, at the end of the key order; a word it has gets, in the file's order,
      each file reference it holds nothing equal to. */
  function MergeEntry(m: Concordance, e: WordEntry): Concordance {
    if e.word in m.entries then
      var me := m.entries[e.word];
      m.(entries := m.entries[e.word := me.(refs := AddAll(me.refs, e.refs.refs))])
    else
      Concordance(m.order + [e.word], m.entries[e.word := e])
  }

  /** The entries es merged in order into m. */
  function MergeEntries(m: Concordance, es: seq<WordEntry>): Concordance
    decreases |es|
  {
    if es == [] then m else MergeEntry(MergeEntries(m, es[..|es| - 1]), es[|es| - 1])
  }

  /** One file's concordance merged into the master, value by value. */
  function MergeFile(m: Concordance, c: Concordance): Concordance
    requires Valid(c)
  {
    MergeEntries(m, Values(c))
  }

  ghost predicate AllValid(files: seq<Concordance>) {
    forall i :: 0 <= i < |files| ==> Valid(files[i])
  }

  /** What process_file hands the merge: well-formed dicts filed by word. */
  ghost predicate AllClean(files: seq<Concordance>) {
    forall i :: 0 <= i < |files| ==> Valid(files[i]) && WordsMatchKeys(files[i])
  }

  /** The master concordance: the files merged in list order into an empty dict. */
  function MergeFiles(files: seq<Concordance>): Concordance
    requires AllValid(files)
    decreases |files|
  {
    if files == [] then Empty
    else MergeFile(MergeFiles(files[..|files| - 1]), files[|files| - 1])
  }

  // ---------------------------------------------------------------------------
  // Reference definitions of what the merge yields
  // ---------------------------------------------------------------------------

  /** The words of the entries, in order. */
  function Words(es: seq<WordEntry>): seq<string>
    decreases |es|
  {
    if es == [] then [] else Words(es[..|es| - 1]) + [es[|es| - 1].word]
  }

  /** The words of ws in order of first appearance, each kept once. */
  function FirstSeen(ws: seq<string>): seq<string>
    decreases |ws|
  {
    if ws == [] then []
    else
      var p := FirstSeen(ws[..|ws| - 1]);
      if ws[|ws| - 1] in p then p else p + [ws[|ws| - 1]]
  }

  /** Every file's key order, one after another. */
  function Orders(files: seq<Concordance>): seq<string>
    decreases |files|
  {
    if files == [] then [] else Orders(files[..|files| - 1]) + files[|files| - 1].order
  }

  /** The keys of all the files. */
  function KeysIn(files: seq<Concordance>): set<string>
    decreases |files|
  {
    if files == [] then {} else KeysIn(files[..|files| - 1]) + files[|files| - 1].entries.Keys
  }

  /** The references of the entries for word w, entry after entry. */
  function RefsFor(es: seq<WordEntry>, w: string): seq<VerseReference>
    decreases |es|
  {
    if es == [] then []
    else RefsFor(es[..|es| - 1], w) + EntryRefs(es[|es| - 1], w)
  }

  /** Each file's references for word w, file after file. */
  function RefsIn(files: seq<Concordance>, w: string): seq<VerseReference>
    decreases |files|
  {
    if files == [] then [] else RefsIn(files[..|files| - 1], w) + RefsOf(files[|files| - 1], w)
  }

  // ---------------------------------------------------------------------------
  // The master is a well-formed dict filed by word
  // ---------------------------------------------------------------------------

  /** Merging one entry keeps the master a well-formed dict filed by word. */
  lemma MergeEntryValid(m: Concordance, e: WordEntry)
    requires Valid(m) && ValidRefSet(e.refs)
    ensures Valid(MergeEntry(m, e))
    ensures WordsMatchKeys(m) ==> WordsMatchKeys(MergeEntry(m, e))
  {
    if e.word in m.entries {
      AddAllKeepsOrder(m.entries[e.word].refs, e.refs.refs);
    }
  }

  lemma {:induction false} MergeEntriesValid(m: Concordance, es: seq<WordEntry>)
    requires Valid(m) && forall i :: 0 <= i < |es| ==> ValidRefSet(es[i].refs)
    ensures Valid(MergeEntries(m, es))
    ensures WordsMatchKeys(m) ==> WordsMatchKeys(MergeEntries(m, es))
    decreases |es|
  {
    if es != [] {
      var init := es[..|es| - 1];
      MergeEntriesValid(m, init);
      MergeEntryValid(MergeEntries(m, init), es[|es| - 1]);
    }
  }

  /** The values of a well-formed dict are well-formed reference sets. */
  lemma ValuesValid(c: Concordance)
    requires Valid(c)
    ensures forall i :: 0 <= i < |Values(c)| ==> ValidRefSet(Values(c)[i].refs)
  {
    EntriesAtSpec(c, c.order);
  }

  /** The master is a well-formed dict with every entry filed under its own word, each
      reference set without two equal references, whatever the files held. */
  lemma {:induction false} MergeFilesValid(files: seq<Concordance>)
    requires AllValid(files)
    ensures Valid(MergeFiles(files)) && WordsMatchKeys(MergeFiles(files))
    decreases |files|
  {
    if files != [] {
      var init, c := files[..|files| - 1], files[|files| - 1];
      MergeFilesValid(init);
      ValuesValid(c);
      MergeEntriesValid(MergeFiles(init), Values(c));
    }
  }

  // ---------------------------------------------------------------------------
  // Keys and their order
  // ---------------------------------------------------------------------------

  /** In a dict filed by word, the words of the entries at keys ks are ks. */
  lemma {:induction false} WordsOfEntriesAt(c: Concordance, ks: seq<string>)
    requires WordsMatchKeys(c) && forall k :: k in ks ==> k in c.entries
    ensures Words(EntriesAt(c, ks)) == ks
    decreases |ks|
  {
    if ks != [] {
      var init, last := ks[..|ks| - 1], ks[|ks| - 1];
      WordsOfEntriesAt(c, init);
      var es := EntriesAt(c, ks);
      assert es == EntriesAt(c, init) + [c.entries[last]];
      assert es[..|es| - 1] == EntriesAt(c, init) && es[|es| - 1].word == last;
      assert Words(es) == ks by {
        assert Words(es) == Words(EntriesAt(c, init)) + [last];
        assert ks == init + [last];
      }
    }
  }

  /** Merging entries adds exactly their words as keys. */
  lemma {:induction false} MergeEntriesKeys(m: Concordance, es: seq<WordEntry>)
    ensures MergeEntries(m, es).entries.Keys == m.entries.Keys + set w | w in Words(es)
    decreases |es|
  {
    if es != [] {
      var init := es[..|es| - 1];
      MergeEntriesKeys(m, init);
      assert Words(es) == Words(init) + [es[|es| - 1].word];
    }
  }

  /** The master's keys are the keys of the files together. */
  lemma {:induction false} MergeFilesKeys(files: seq<Concordance>)
    requires AllClean(files)
    ensures MergeFiles(files).entries.Keys == KeysIn(files)
    decreases |files|
  {
    if files != [] {
      var init, c := files[..|files| - 1], files[|files| - 1];
      assert AllClean(init);
      MergeFilesKeys(init);
      MergeEntriesKeys(MergeFiles(init), Values(c));
      WordsOfEntriesAt(c, c.order);
    }
  }

  /** A word is a key of the merged files exactly when some file has it. */
  lemma {:induction false} KeysInSpec(files: seq<Concordance>, w: string)
    ensures w in KeysIn(files) <==> exists i :: 0 <= i < |files| && w in files[i].entries
    decreases |files|
  {
    if files != [] {
      var init := files[..|files| - 1];
      KeysInSpec(init, w);
      if w in KeysIn(init) {
        var i :| 0 <= i < |init| && w in init[i].entries;
        assert files[i] == init[i];
      }
      if exists i :: 0 <= i < |files| && w in files[i].entries {
        var i :| 0 <= i < |files| && w in files[i].entries;
        if i < |init| {
          assert init[i] == files[i];
        }
      }
    }
  }

  /** The master key set is the union of the files' key sets. */
  lemma MergedKeys(files: seq<Concordance>, w: string)
    requires AllClean(files)
    ensures w in MergeFiles(files).entries <==> exists i :: 0 <= i < |files| && w in files[i].entries
  {
    MergeFilesKeys(files);
    KeysInSpec(files, w);
  }

  /** First appearance order lists each word once, and exactly the words of ws. */
  lemma {:induction false} FirstSeenProperties(ws: seq<string>)
    ensures NoDuplicates(FirstSeen(ws))
    ensures forall w :: w in FirstSeen(ws) <==> w in ws
    decreases |ws|
  {
    if ws != [] {
      var init := ws[..|ws| - 1];
      FirstSeenProperties(init);
      assert ws == init + [ws[|ws| - 1]];
    }
  }

  /** Merging entries extends the master's first-appearance order by their words. */
  lemma {:induction false} MergeEntriesOrder(m: Concordance, es: seq<WordEntry>, x: seq<string>)
    requires Valid(m) && m.order == FirstSeen(x)
    requires forall i :: 0 <= i < |es| ==> ValidRefSet(es[i].refs)
    ensures MergeEntries(m, es).order == FirstSeen(x + Words(es))
    decreases |es|
  {
    if es == [] {
      assert x + Words(es) == x;
    } else {
      var init, e := es[..|es| - 1], es[|es| - 1];
      MergeEntriesOrder(m, init, x);
      MergeEntriesValid(m, init);
      var y := x + Words(init);
      assert (x + Words(es))[..|x + Words(es)| - 1] == y;
    }
  }

  /** The master's keys come in the order they first appear across the files. */
  lemma {:induction false} MergeFilesOrder(files: seq<Concordance>)
    requires AllClean(files)
    ensures MergeFiles(files).order == FirstSeen(Orders(files))
    decreases |files|
  {
    if files != [] {
      var init, c := files[..|files| - 1], files[|files| - 1];
      assert AllClean(init);
      MergeFilesOrder(init);
      MergeFilesValid(init);
      ValuesValid(c);
      MergeEntriesOrder(MergeFiles(init), Values(c), Orders(init));
      WordsOfEntriesAt(c, c.order);
    }
  }

  // ---------------------------------------------------------------------------
  // References
  // ---------------------------------------------------------------------------

  /** The references an entry contributes to word w. */
  function EntryRefs(e: WordEntry, w: string): seq<VerseReference> {
    if e.word == w then e.refs.refs else []
  }

  /** w's reference set is well formed, when w is a key of c. */
  predicate RefsValidAt(c: Concordance, w: string) {
    w in c.entries ==> ValidRefSet(c.entries[w].refs)
  }

  /** Merging one entry gives word w the first-seen, duplicate-free union of what it had
      and of the entry's references for w. */
  lemma MergeEntryRefs(m: Concordance, e: WordEntry, w: string, y: seq<VerseReference>)
    requires RefsValidAt(m, w) && ValidRefSet(e.refs)
    requires RefsOf(m, w) == Dedup(y) && (w !in m.entries ==> y == [])
    ensures RefsValidAt(MergeEntry(m, e), w)
    ensures RefsOf(MergeEntry(m, e), w) == Dedup(y + EntryRefs(e, w))
    ensures w !in MergeEntry(m, e).entries ==> y + EntryRefs(e, w) == []
  {
    if e.word == w {
      if w in m.entries {
        AddAllIsDedup(m.entries[w].refs, y, e.refs.refs);
      } else {
        assert y + e.refs.refs == e.refs.refs;
        DedupOfDistinct(e.refs.refs);
      }
    } else {
      assert y + EntryRefs(e, w) == y;
    }
  }

  /** Merging entries gives word w the first-seen, duplicate-free union of what it had and
      of the entries' references for w. */
  lemma {:induction false} MergeEntriesRefs(m: Concordance, es: seq<WordEntry>, w: string, x: seq<VerseReference>)
    requires RefsValidAt(m, w) && forall i :: 0 <= i < |es| ==> ValidRefSet(es[i].refs)
    requires RefsOf(m, w) == Dedup(x) && (w !in m.entries ==> x == [])
    ensures RefsValidAt(MergeEntries(m, es), w)
    ensures RefsOf(MergeEntries(m, es), w) == Dedup(x + RefsFor(es, w))
    ensures w !in MergeEntries(m, es).entries ==> x + RefsFor(es, w) == []
    decreases |es|
  {
    if es == [] {
      assert x + RefsFor(es, w) == x;
    } else {
      var init, e := es[..|es| - 1], es[|es| - 1];
      var m1, y := MergeEntries(m, init), x + RefsFor(init, w);
      MergeEntriesRefs(m, init, w, x);
      assert x + RefsFor(es, w) == y + EntryRefs(e, w) by {
        assert RefsFor(es, w) == RefsFor(init, w) + EntryRefs(e, w);
        Text.AppendAssociates(x, RefsFor(init, w), EntryRefs(e, w));
      }
      MergeEntryRefs(m1, e, w, y);
    }
  }

  /** In a dict filed by word, the references for w among the entries at distinct keys
      ks are w's own when ks lists w, and none otherwise. */
  lemma {:induction false} RefsForEntriesAt(c: Concordance, ks: seq<string>, w: string)
    requires WordsMatchKeys(c) && NoDuplicates(ks) && forall k :: k in ks ==> k in c.entries
    ensures RefsFor(EntriesAt(c, ks), w) == if w in ks then RefsOf(c, w) else []
    decreases |ks|
  {
    if ks != [] {
      var init, k := ks[..|ks| - 1], ks[|ks| - 1];
      assert NoDuplicates(init);
      RefsForEntriesAt(c, init, w);
      var es := EntriesAt(c, ks);
      assert es[..|es| - 1] == EntriesAt(c, init);
      assert ks == init + [k];
      if k == w {
        assert w !in init;
      }
    }
  }

  /** Each master word holds the duplicate-free union, in first-seen order, of that word's
      references in the files, file by file. */
  lemma {:induction false} MergeFilesRefs(files: seq<Concordance>, w: string)
    requires AllClean(files)
    ensures RefsOf(MergeFiles(files), w) == Dedup(RefsIn(files, w))
    ensures w !in MergeFiles(files).entries ==> RefsIn(files, w) == []
    decreases |files|
  {
    if files != [] {
      var init, c := files[..|files| - 1], files[|files| - 1];
      assert AllClean(init);
      MergeFilesRefs(init, w);
      MergeFilesValid(init);
      ValuesValid(c);
      MergeEntriesRefs(MergeFiles(init), Values(c), w, RefsIn(init, w));
      RefsForEntriesAt(c, c.order, w);
    }
  }

  lemma {:induction false} RefsInAbsent(files: seq<Concordance>, w: string)
    requires forall j :: 0 <= j < |files| ==> w !in files[j].entries
    ensures RefsIn(files, w) == []
    decreases |files|
  {
    if files != [] {
      RefsInAbsent(files[..|files| - 1], w);
    }
  }

  lemma {:induction false} RefsInPrefix(files: seq<Concordance>, k: nat, w: string)
    requires k <= |files|
    ensures RefsIn(files[..k], w) <= RefsIn(files, w)
    decreases |files|
  {
    if k == |files| {
      assert files[..k] == files;
    } else {
      var init := files[..|files| - 1];
      assert init[..k] == files[..k];
      RefsInPrefix(init, k, w);
    }
  }

  lemma RefsOfDistinct(c: Concordance, w: string)
    requires Valid(c)
    ensures DistinctKeys(RefsOf(c, w))
  {
  }

  /** The references for w up to and including the first file that has it are that
      file's. */
  lemma RefsInFirst(files: seq<Concordance>, i: nat, w: string)
    requires i < |files|
    requires forall j :: 0 <= j < i ==> w !in files[j].entries
    ensures RefsIn(files[..i + 1], w) == RefsOf(files[i], w)
  {
    var upTo := files[..i + 1];
    assert upTo[..i] == files[..i];
    RefsInAbsent(files[..i], w);
    assert RefsIn(upTo, w) == RefsIn(files[..i], w) + RefsOf(files[i], w);
  }

  /** Deduplicating the references file by file keeps those of the first file with w,
      in their order, at the front. */
  lemma FirstFileRefsLead(files: seq<Concordance>, i: nat, w: string)
    requires i < |files| && Valid(files[i])
    requires forall j :: 0 <= j < i ==> w !in files[j].entries
    ensures RefsOf(files[i], w) <= Dedup(RefsIn(files, w))
  {
    var a, whole := RefsOf(files[i], w), RefsIn(files, w);
    assert a <= whole by {
      RefsInFirst(files, i, w);
      RefsInPrefix(files, i + 1, w);
    }
    var tail := whole[|a|..];
    assert whole == a + tail;
    assert Dedup(a) == a by {
      RefsOfDistinct(files[i], w);
      DedupOfDistinct(a);
    }
    DedupPrefix(a, tail);
  }

  /** A word first seen in file i keeps file i's references, in file i's order, at the
      front of its master references. */
  lemma FirstFileRefsFirst(files: seq<Concordance>, i: nat, w: string)
    requires AllClean(files) && i < |files|
    requires forall j :: 0 <= j < i ==> w !in files[j].entries
    ensures RefsOf(files[i], w) <= RefsOf(MergeFiles(files), w)
  {
    FirstFileRefsLead(files, i, w);
    MergeFilesRefs(files, w);
  }

  // ---------------------------------------------------------------------------
  // The collation loop, as the source writes it
  // ---------------------------------------------------------------------------

  /** `for ref in file_word_entry.refs: if ref not in word_entry.refs: ...`. */
  method AddRefs(rs: RefSet, s: seq<VerseReference>) returns (out: RefSet)
    ensures out == AddAll(rs, s)
  {
    out := rs;
    var k := 0;
    while k < |s|
      invariant 0 <= k <= |s|
      invariant out == AddAll(rs, s[..k])
    {
      assert s[..k + 1][..k] == s[..k];
      if !Contains(out, s[k]) {
        out := Add(out, s[k]);
      }
      k := k + 1;
    }
    assert s[..|s|] == s;
  }

  /** `for file_word_entry in file_word_entries.values(): ...`, for one file. */
  method MergeInto(m: Concordance, c: Concordance) returns (master: Concordance)
    requires Valid(c)
    ensures master == MergeFile(m, c)
  {
    master := m;
    var j := 0;
    while j < |c.order|
      invariant 0 <= j <= |c.order|
      invariant master == MergeEntries(m, EntriesAt(c, c.order[..j]))
    {
      var fileWordEntry := c.entries[c.order[j]];
      ghost var before := master;
      MergeNextValue(m, c, j);
      var word := fileWordEntry.word;
      if word in master.entries {
        var wordEntry := master.entries[word];
        var refs := AddRefs(wordEntry.refs, fileWordEntry.refs.refs);
        master := master.(entries := master.entries[word := wordEntry.(refs := refs)]);
      } else {
        master := Concordance(master.order + [fileWordEntry.word], master.entries[fileWordEntry.word := fileWordEntry]);
      }
      assert master == MergeEntry(before, fileWordEntry);
      j := j + 1;
    }
    assert c.order[..|c.order|] == c.order;
  }

  /** Merging the values of the first j + 1 keys is merging those of the first j, then
      the value of key j. */
  lemma MergeNextValue(m: Concordance, c: Concordance, j: nat)
    requires Valid(c) && j < |c.order|
    ensures MergeEntries(m, EntriesAt(c, c.order[..j + 1]))
         == MergeEntry(MergeEntries(m, EntriesAt(c, c.order[..j])), c.entries[c.order[j]])
  {
    assert c.order[..j + 1][..j] == c.order[..j];
    var done := EntriesAt(c, c.order[..j]);
    var es := EntriesAt(c, c.order[..j + 1]);
    assert es == done + [c.entries[c.order[j]]];
    assert es[..|es| - 1] == done;
  }

  /** `for file_word_entries in all_word_entries: ...`: the files merged into an empty
      master, in list order. */
  method Collate(files: seq<Concordance>) returns (master: Concordance)
    requires AllValid(files)
    ensures master == MergeFiles(files)
  {
    master := Empty;
    var i := 0;
    while i < |files|
      invariant 0 <= i <= |files|
      invariant AllValid(files[..i]) && master == MergeFiles(files[..i])
    {
      assert files[..i + 1][..i] == files[..i];
      master := MergeInto(master, files[i]);
      i := i + 1;
    }
    assert files[..|files|] == files;
  }

  // ---------------------------------------------------------------------------
  // process_file_or_dir
  // ---------------------------------------------------------------------------

  /** A USFM file: its path and the lines readlines() yields. */
  datatype SourceFile = SourceFile(path: string, lines: seq<string>)

  /** What the path names: a file, a directory with its USFM files already found and
      sorted, or neither. */
  datatype Target = File(file: SourceFile) | Directory(files: seq<SourceFile>) | Neither

  /** `list(executor.map(process_file, usfm_files))`: every file parsed, results in the
      order of the files; the first file that raises, in that order, is what the list
      raises. */
  function ParseAll(files: seq<SourceFile>): Result<seq<Concordance>, Error>
    decreases |files|
  {
    if files == [] then Success([])
    else
      match ParseAll(files[..|files| - 1])
      case Failure(e) => Failure(e)
      case Success(cs) =>
        var f := files[|files| - 1];
        match ParseFile(f.lines, f.path)
        case Failure(e) => Failure(e)
        case Success(c) => Success(cs + [c])
  }

  /** When every file parses, the results are the files' concordances, in order. */
  lemma {:induction false} ParseAllResults(files: seq<SourceFile>)
    requires ParseAll(files).Success?
    ensures |ParseAll(files).value| == |files|
    ensures forall i :: 0 <= i < |files| ==>
              ParseFile(files[i].lines, files[i].path) == Success(ParseAll(files).value[i])
    decreases |files|
  {
    if files != [] {
      var init, f := files[..|files| - 1], files[|files| - 1];
      ParseAllResults(init);
      var before, c := ParseAll(init).value, ParseFile(f.lines, f.path).value;
      var cs := ParseAll(files).value;
      assert cs == before + [c];
      forall i | 0 <= i < |files|
        ensures ParseFile(files[i].lines, files[i].path) == Success(cs[i])
      {
        if i < |init| {
          assert files[i] == init[i] && cs[i] == before[i];
        }
      }
    }
  }

  /** Every concordance a directory's files parse to is a well-formed dict filed by word. */
  lemma ParseAllClean(files: seq<SourceFile>)
    requires ParseAll(files).Success?
    ensures AllClean(ParseAll(files).value)
  {
    ParseAllResults(files);
    var cs := ParseAll(files).value;
    forall i | 0 <= i < |cs|
      ensures Valid(cs[i]) && WordsMatchKeys(cs[i])
    {
      ParsedFileIsClean(files[i].lines, files[i].path);
    }
  }

  /** The first file that fails to parse, in list order, is what the directory raises. */
  lemma {:induction false} ParseAllFirstFailure(files: seq<SourceFile>, i: nat)
    requires i < |files| && ParseFile(files[i].lines, files[i].path).Failure?
    requires forall j :: 0 <= j < i ==> ParseFile(files[j].lines, files[j].path).Success?
    ensures ParseAll(files) == Failure(ParseFile(files[i].lines, files[i].path).error)
    decreases |files|
  {
    var init := files[..|files| - 1];
    if i < |init| {
      forall j | 0 <= j < i
        ensures ParseFile(init[j].lines, init[j].path).Success?
      {
        assert init[j] == files[j];
      }
      assert init[i] == files[i];
      ParseAllFirstFailure(init, i);
    } else {
      ParseAllSucceeds(init);
    }
  }

  /** A list of files that all parse parses. */
  lemma {:induction false} ParseAllSucceeds(files: seq<SourceFile>)
    requires forall j :: 0 <= j < |files| ==> ParseFile(files[j].lines, files[j].path).Success?
    ensures ParseAll(files).Success?
    decreases |files|
  {
    if files != [] {
      var init := files[..|files| - 1];
      forall j | 0 <= j < |init|
        ensures ParseFile(init[j].lines, init[j].path).Success?
      {
        assert init[j] == files[j];
      }
      ParseAllSucceeds(init);
    }
  }

  /** process_file_or_dir: a file is parsed alone; a directory's files are parsed and
      their concordances collated, unless one raises; anything else gives an empty dict. */
  function Analyze(t: Target): Result<Concordance, Error> {
    match t
    case File(f) => ParseFile(f.lines, f.path)
    case Neither => Success(Empty)
    case Directory(files) =>
      match ParseAll(files)
      case Failure(e) => Failure(e)
      case Success(cs) =>
        ParseAllClean(files);
        Success(MergeFiles(cs))
  }

  /** What the analyzer returns for a path is a well-formed dict filed by word. */
  lemma AnalyzeIsClean(t: Target)
    requires Analyze(t).Success?
    ensures Valid(Analyze(t).value) && WordsMatchKeys(Analyze(t).value)
  {
    match t
    case File(f) => ParsedFileIsClean(f.lines, f.path);
    case Neither =>
    case Directory(files) =>
      ParseAllClean(files);
      MergeFilesValid(ParseAll(files).value);
  }

  method ProcessFileOrDir(t: Target) returns (r: Result<Concordance, Error>)
    ensures r == Analyze(t)
  {
    match t
    case File(f) =>
      r := ProcessFile(f.lines, f.path);
    case Neither =>
      r := Success(Empty);
    case Directory(files) =>
      var allWordEntries: seq<Concordance> := [];
      var i := 0;
      while i < |files|
        invariant 0 <= i <= |files|
        invariant ParseAll(files[..i]) == Success(allWordEntries)
      {
        assert files[..i + 1][..i] == files[..i];
        var parsed := ProcessFile(files[i].lines, files[i].path);
        if parsed.Failure? {
          assert ParseAll(files[..i + 1]) == Failure(parsed.error);
          ParseAllFailureSticks(files, i + 1, parsed.error);
          return Failure(parsed.error);
        }
        allWordEntries := allWordEntries + [parsed.value];
        i := i + 1;
      }
      assert files[..|files|] == files;
      ParseAllClean(files);
      var master := Collate(allWordEntries);
      r := Success(master);
  }

  /** Once a file raises, the files after it cannot undo it. */
  lemma {:induction false} ParseAllFailureSticks(files: seq<SourceFile>, k: nat, e: Error)
    requires k <= |files| && ParseAll(files[..k]) == Failure(e)
    ensures ParseAll(files) == Failure(e)
    decreases |files| - k
  {
    if k < |files| {
      assert files[..k + 1][..k] == files[..k];
      ParseAllFailureSticks(files, k + 1, e);
    } else {
      assert files[..k] == files;
    }
  }
}
