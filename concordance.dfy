/** WordEntry and the concordance: the insertion-ordered dict[str, WordEntry] that
    both the parser and the merger build. */
module Concordances {
  import opened Refs

  /** One distinct word and the references it occurs at. */
  datatype WordEntry = WordEntry(word: string, refs: RefSet)

  /** A dict[str, WordEntry]: the keys in insertion order beside the mapping itself. */
  datatype Concordance = Concordance(order: seq<string>, entries: map<string, WordEntry>)

  const Empty: Concordance := Concordance([], map[])

  predicate NoDuplicates(s: seq<string>) {
    forall i, j :: 0 <= i < j < |s| ==> s[i] != s[j]
  }

  /** The representation invariant of a dict: the order lists each key once and only
      the keys, and every entry's reference set is a well-formed ordered set. */
  ghost predicate Valid(c: Concordance) {
    && NoDuplicates(c.order)
    && (forall k :: k in c.entries <==> k in c.order)
    && (forall k :: k in c.entries ==> ValidRefSet(c.entries[k].refs))
  }

  /** Every entry is filed under its own word: entries[k].word == k. */
  ghost predicate WordsMatchKeys(c: Concordance) {
    forall k :: k in c.entries ==> c.entries[k].word == k
  }

  /** The entries of the keys ks, in the order of ks. */
  function EntriesAt(c: Concordance, ks: seq<string>): seq<WordEntry>
    requires forall k :: k in ks ==> k in c.entries
    decreases |ks|
  {
    if ks == [] then []
    else EntriesAt(c, ks[..|ks| - 1]) + [c.entries[ks[|ks| - 1]]]
  }

  /** `.values()`: the entries in key insertion order. */
  function Values(c: Concordance): seq<WordEntry>
    requires Valid(c)
  {
    EntriesAt(c, c.order)
  }

  /** EntriesAt lists, position by position, the entry of each key. */
  lemma {:induction false} EntriesAtSpec(c: Concordance, ks: seq<string>)
    requires forall k :: k in ks ==> k in c.entries
    ensures |EntriesAt(c, ks)| == |ks|
    ensures forall i :: 0 <= i < |ks| ==> EntriesAt(c, ks)[i] == c.entries[ks[i]]
    decreases |ks|
  {
    if ks != [] {
      var init := ks[..|ks| - 1];
      EntriesAtSpec(c, init);
      forall i | 0 <= i < |ks|
        ensures EntriesAt(c, ks)[i] == c.entries[ks[i]]
      {
        if i < |init| {
          assert ks[i] == init[i];
        }
      }
    }
  }

  /** The references of k in c, none when k is not a key. */
  function RefsOf(c: Concordance, k: string): seq<VerseReference> {
    if k in c.entries then c.entries[k].refs.refs else []
  }

  /** Record that word w occurs at reference r: a new word gets an entry holding r
      alone, appended to the key order; a known word gets r appended to its
      references unless an equal reference is already there. */
  function Record(c: Concordance, w: string, r: VerseReference): (c': Concordance)
    ensures c'.order == if w in c.entries then c.order else c.order + [w]
    ensures c'.entries.Keys == c.entries.Keys + {w}
    ensures c'.entries[w].refs.refs == if w in c.entries then Add(c.entries[w].refs, r).refs else [r]
    ensures forall k :: k in c.entries && k != w ==> c'.entries[k] == c.entries[k]
  {
    if w !in c.entries then
      Concordance(c.order + [w], c.entries[w := WordEntry(w, Singleton(r))])
    else
      var e := c.entries[w];
      if Contains(e.refs, r) then c
      else c.(entries := c.entries[w := e.(refs := Add(e.refs, r))])
  }

  /** Recording an occurrence at a verse the word already has leaves the whole
      concordance as it was: same keys, same references, same order. */
  lemma RecordDuplicateUnchanged(c: Concordance, w: string, x: VerseReference, r: VerseReference)
    requires Valid(c) && w in c.entries && x in c.entries[w].refs.refs && Equals(x, r)
    ensures Record(c, w, r) == c
  {
  }

  /** Recording keeps the dict well formed, and keeps every entry filed under its word. */
  lemma RecordValid(c: Concordance, w: string, r: VerseReference)
    requires Valid(c)
    ensures Valid(Record(c, w, r))
    ensures WordsMatchKeys(c) ==> WordsMatchKeys(Record(c, w, r))
  {
    if w in c.entries {
      AddKeepsOrder(c.entries[w].refs, r);
    }
  }

  /** Recording never reorders: the key order and every entry's references only grow
      at the end, and the only reference that can appear is r. */
  lemma RecordKeepsOrder(c: Concordance, w: string, r: VerseReference)
    ensures c.order <= Record(c, w, r).order
    ensures forall k :: k in c.entries ==> c.entries[k].refs.refs <= Record(c, w, r).entries[k].refs.refs
    ensures forall k, x :: k in Record(c, w, r).entries && x in Record(c, w, r).entries[k].refs.refs ==>
              (k in c.entries && x in c.entries[k].refs.refs) || x == r
  {
  }

  /** In a well-formed dict, afterwards w has a reference equal to r. */
  lemma RecordHolds(c: Concordance, w: string, r: VerseReference)
    requires Valid(c)
    ensures Key(r) in KeysOf(Record(c, w, r).entries[w].refs.refs)
  {
    if w in c.entries {
      AddKeepsOrder(c.entries[w].refs, r);
    }
  }
}
