/** VerseReference and its identity, and the insertion-ordered reference set a
    WordEntry keeps (a dict[VerseReference, None] in the analyzer). */
module Refs {
  import opened Wrappers
  import opened Text

  /** The identity of a reference: the triple __eq__ compares and __hash__ hashes. */
  datatype RefKey = RefKey(book: string, chapter: int, verse: int)

  /** One verse occurrence of a word: where it is, the file it came from and the
      cleaned text of its line. */
  datatype VerseReference = VerseReference(book: string, chapter: int, verse: int, filePath: string, text: string)

  function Key(r: VerseReference): RefKey {
    RefKey(r.book, r.chapter, r.verse)
  }

  /** __eq__: book, chapter and verse decide; file path and text do not. */
  function Equals(a: VerseReference, b: VerseReference): (eq: bool)
    ensures eq <==> Key(a) == Key(b)
  {
    a.book == b.book && a.chapter == b.chapter && a.verse == b.verse
  }

  /** __hash__: Python's hash of the tuple (book, chapter, verse), with the tuple hash
      itself passed in as tupleHash. */
  function Hash(r: VerseReference, tupleHash: RefKey -> int): int {
    tupleHash(Key(r))
  }

  /** __str__, e.g. "Genesis 1:6". */
  function Display(r: VerseReference): string {
    r.book + " " + IntToString(r.chapter) + ":" + IntToString(r.verse)
  }

  /** Equality is an equivalence, so it can serve as the key equality of a dict. */
  lemma EqualsIsEquivalence(a: VerseReference, b: VerseReference, c: VerseReference)
    ensures Equals(a, a)
    ensures Equals(a, b) == Equals(b, a)
    ensures Equals(a, b) && Equals(b, c) ==> Equals(a, c)
  {
  }

  /** Changing the file path or the text of a reference never changes what it equals. */
  lemma EqualsIgnoresPathAndText(a: VerseReference, b: VerseReference, path: string, text: string)
    ensures Equals(a, a.(filePath := path, text := text))
    ensures Equals(a.(filePath := path, text := text), b) == Equals(a, b)
  {
  }

  /** Equal references hash equally, whatever the tuple hash is; references that differ
      only in path or text hash equally. */
  lemma EqualRefsHashEqually(a: VerseReference, b: VerseReference, tupleHash: RefKey -> int)
    requires Equals(a, b)
    ensures Hash(a, tupleHash) == Hash(b, tupleHash)
  {
  }

  /** Two strings with no colon are recovered from their colon-joined form. */
  lemma ColonJoinInjective(x1: string, y1: string, x2: string, y2: string)
    requires ':' !in x1 && ':' !in x2
    requires x1 + ":" + y1 == x2 + ":" + y2
    ensures x1 == x2 && y1 == y2
  {
    var j1, j2 := x1 + ":" + y1, x2 + ":" + y2;
    assert j1[|x1|] == ':' && j2[|x2|] == ':';
    assert forall i :: 0 <= i < |x1| ==> j1[i] == x1[i] != ':';
    assert forall i :: 0 <= i < |x2| ==> j2[i] == x2[i] != ':';
    assert |x1| == |x2|;
    assert x1 == j1[..|x1|] && x2 == j2[..|x2|];
    assert y1 == j1[|x1| + 1..] && y2 == j2[|x2| + 1..];
  }

  lemma IntToStringHasNoColon(n: int)
    ensures ':' !in IntToString(n)
  {
  }

  /** Within one book, two references print the same exactly when they are equal. */
  lemma DisplayAgreesWithEquals(a: VerseReference, b: VerseReference)
    requires a.book == b.book
    ensures Display(a) == Display(b) <==> Equals(a, b)
  {
    if Display(a) == Display(b) {
      var p := a.book + " ";
      var ta := IntToString(a.chapter) + ":" + IntToString(a.verse);
      var tb := IntToString(b.chapter) + ":" + IntToString(b.verse);
      assert Display(a) == p + ta && Display(b) == p + tb;
      assert ta == (p + ta)[|p|..] && tb == (p + tb)[|p|..];
      IntToStringHasNoColon(a.chapter);
      IntToStringHasNoColon(b.chapter);
      ColonJoinInjective(IntToString(a.chapter), IntToString(a.verse), IntToString(b.chapter), IntToString(b.verse));
      IntToStringInjective(a.chapter, b.chapter);
      IntToStringInjective(a.verse, b.verse);
    }
  }

  // ---------------------------------------------------------------------------
  // The ordered reference set
  // ---------------------------------------------------------------------------

  /** An insertion-ordered set of references: the references in first-seen order,
      beside the hash index of their identities that answers membership. */
  datatype RefSet = RefSet(refs: seq<VerseReference>, index: set<RefKey>)

  function KeysOf(s: seq<VerseReference>): set<RefKey> {
    set r | r in s :: Key(r)
  }

  /** No two references of s are equal. */
  predicate DistinctKeys(s: seq<VerseReference>) {
    forall i, j :: 0 <= i < j < |s| ==> Key(s[i]) != Key(s[j])
  }

  /** The index holds exactly the identities of the references, and no reference
      equals another. */
  predicate ValidRefSet(rs: RefSet) {
    rs.index == KeysOf(rs.refs) && DistinctKeys(rs.refs)
  }

  /** `r in refs`: some reference of the set equals r. */
  function Contains(rs: RefSet, r: VerseReference): (b: bool)
    ensures ValidRefSet(rs) ==> (b <==> exists x :: x in rs.refs && Equals(x, r))
  {
    Key(r) in rs.index
  }

  /** `{r: None}`. */
  function Singleton(r: VerseReference): (rs: RefSet)
    ensures ValidRefSet(rs) && rs.refs == [r]
  {
    RefSet([r], {Key(r)})
  }

  /** `if r not in refs: refs[r] = None`: r goes at the end unless an equal reference
      is already present, in which case nothing changes. */
  function Add(rs: RefSet, r: VerseReference): (out: RefSet)
    ensures out.refs == if Contains(rs, r) then rs.refs else rs.refs + [r]
    ensures out.index == rs.index + {Key(r)}
  {
    if Key(r) in rs.index then rs
    else RefSet(rs.refs + [r], rs.index + {Key(r)})
  }

  /** Adding a reference equal to one present changes neither contents nor order. */
  lemma AddPresentUnchanged(rs: RefSet, x: VerseReference, r: VerseReference)
    requires ValidRefSet(rs) && x in rs.refs && Equals(x, r)
    ensures Add(rs, r) == rs
  {
  }

  /** Adding never reorders or removes: the old references are a prefix of the new,
      at most one reference is appended, and the identities grow by exactly Key(r). */
  lemma AddKeepsOrder(rs: RefSet, r: VerseReference)
    requires ValidRefSet(rs)
    ensures ValidRefSet(Add(rs, r))
    ensures rs.refs <= Add(rs, r).refs
    ensures |Add(rs, r).refs| <= |rs.refs| + 1
    ensures KeysOf(Add(rs, r).refs) == KeysOf(rs.refs) + {Key(r)}
  {
    if Key(r) !in rs.index {
      assert KeysOf(rs.refs + [r]) == rs.index + {Key(r)};
    }
  }

  /** The references of s in first-seen order, each dropped when an equal one came
      before it: the reference definition of an ordered set filled from s. */
  function Dedup(s: seq<VerseReference>): (r: seq<VerseReference>)
    decreases |s|
  {
    if s == [] then []
    else
      var p := Dedup(s[..|s| - 1]);
      if Key(s[|s| - 1]) in KeysOf(p) then p else p + [s[|s| - 1]]
  }

  /** Dedup keeps one reference per identity, loses none, and keeps each
      first occurrence where it was. */
  lemma {:induction false} DedupProperties(s: seq<VerseReference>)
    ensures DistinctKeys(Dedup(s))
    ensures KeysOf(Dedup(s)) == KeysOf(s)
    ensures forall x :: x in Dedup(s) ==> x in s
    decreases |s|
  {
    if s != [] {
      var init := s[..|s| - 1];
      DedupProperties(init);
      assert s == init + [s[|s| - 1]];
      assert KeysOf(s) == KeysOf(init) + {Key(s[|s| - 1])};
      var p := Dedup(init);
      assert KeysOf(p + [s[|s| - 1]]) == KeysOf(p) + {Key(s[|s| - 1])};
    }
  }

  /** A sequence without equal references is its own Dedup. */
  lemma {:induction false} DedupOfDistinct(s: seq<VerseReference>)
    requires DistinctKeys(s)
    ensures Dedup(s) == s
    decreases |s|
  {
    if s != [] {
      var init, last := s[..|s| - 1], s[|s| - 1];
      assert DistinctKeys(init);
      DedupOfDistinct(init);
      assert Key(last) !in KeysOf(init) by {
        forall x | x in init
          ensures Key(x) != Key(last)
        {
          var i :| 0 <= i < |init| && init[i] == x;
          assert s[i] == x;
        }
      }
    }
  }

  /** What s contributes later never disturbs the order already established by x. */
  lemma {:induction false} DedupPrefix(x: seq<VerseReference>, s: seq<VerseReference>)
    ensures Dedup(x) <= Dedup(x + s)
    decreases |s|
  {
    if s != [] {
      var init := s[..|s| - 1];
      DedupPrefix(x, init);
      assert (x + s)[..|x + s| - 1] == x + init;
    } else {
      assert x + s == x;
    }
  }

  /** `for ref in refs: if ref not in rs: rs[ref] = None`. */
  function AddAll(rs: RefSet, s: seq<VerseReference>): RefSet
    decreases |s|
  {
    if s == [] then rs else Add(AddAll(rs, s[..|s| - 1]), s[|s| - 1])
  }

  /** Filling a well-formed set keeps it well formed and never reorders what it held. */
  lemma AddAllKeepsOrder(rs: RefSet, s: seq<VerseReference>)
    requires ValidRefSet(rs)
    ensures ValidRefSet(AddAll(rs, s))
    ensures rs.refs <= AddAll(rs, s).refs
  {
    DedupOfDistinct(rs.refs);
    AddAllIsDedup(rs, rs.refs, s);
    DedupPrefix(rs.refs, s);
  }

  /** Filling a set that holds Dedup(x) from s gives Dedup(x + s). */
  lemma {:induction false} AddAllIsDedup(rs: RefSet, x: seq<VerseReference>, s: seq<VerseReference>)
    requires ValidRefSet(rs) && rs.refs == Dedup(x)
    ensures ValidRefSet(AddAll(rs, s))
    ensures AddAll(rs, s).refs == Dedup(x + s)
    decreases |s|
  {
    if s == [] {
      assert x + s == x;
    } else {
      var init := s[..|s| - 1];
      AddAllIsDedup(rs, x, init);
      AddKeepsOrder(AddAll(rs, init), s[|s| - 1]);
      assert (x + s)[..|x + s| - 1] == x + init;
      assert (x + s)[|x + s| - 1] == s[|s| - 1];
    }
  }
}
