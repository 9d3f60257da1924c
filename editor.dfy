/** The editor's side panel: which entries of the active paragraph's
    vocabulary actually occur in its text (`matchedVocabIds`), the list the
    sidebar shows, and the example-sentence list of the entry being edited. */
module Editor {
  import opened Strs
  import opened Tokenizer
  import opened Vocab
  import opened LengthSort
  import opened Highlight
  import opened HighlightProps

  // ---------------------------------------------------------------------
  // The active paragraph

  /** `paragraphs.find(p => p.id === activeParaId)`, with `null` as `None`. */
  function FindParagraph(paragraphs: seq<Paragraph>, activeParaId: Option<int>): (r: Option<Paragraph>)
    ensures r.Some? <==> exists p :: p in paragraphs && Some(p.id) == activeParaId
    ensures r.Some? ==> r.value in paragraphs && Some(r.value.id) == activeParaId
  {
    if paragraphs == [] then None
    else if Some(paragraphs[0].id) == activeParaId then Some(paragraphs[0])
    else
      assert forall p :: p in paragraphs && p != paragraphs[0] ==> p in paragraphs[1..];
      FindParagraph(paragraphs[1..], activeParaId)
  }

  /** `find` returns the first paragraph with the id. */
  lemma {:induction false} FindParagraphFirst(paragraphs: seq<Paragraph>, activeParaId: Option<int>, j: nat)
    requires j < |paragraphs| && Some(paragraphs[j].id) == activeParaId
    requires forall k :: 0 <= k < j ==> Some(paragraphs[k].id) != activeParaId
    ensures FindParagraph(paragraphs, activeParaId) == Some(paragraphs[j])
  {
    if j > 0 {
      assert Some(paragraphs[0].id) != activeParaId;
      FindParagraphFirst(paragraphs[1..], activeParaId, j - 1);
    }
  }

  // ---------------------------------------------------------------------
  // The matched set, as a specification

  /** The ids of those of the first `n` entries that satisfy `p`. */
  function IdsUpTo(p: Entry -> bool, s: seq<Entry>, n: nat): set<int>
    requires n <= |s|
  {
    if n == 0 then {} else IdsUpTo(p, s, n - 1) + (if p(s[n - 1]) then {s[n - 1].id} else {})
  }

  lemma {:induction false} IdsUpToSpec(p: Entry -> bool, s: seq<Entry>, n: nat, id: int)
    requires n <= |s|
    ensures id in IdsUpTo(p, s, n) <==> exists j :: 0 <= j < n && p(s[j]) && s[j].id == id
  {
    if n > 0 {
      IdsUpToSpec(p, s, n - 1, id);
      if p(s[n - 1]) && s[n - 1].id == id {
        assert exists j :: 0 <= j < n && p(s[j]) && s[j].id == id;
      }
    }
  }

  function MatchesFn(segs: seq<Segment>): Entry -> bool {
    (v: Entry) => EntryMatches(segs, v)
  }

  /** The ids of the matching entries among the first `n` of `sorted`. */
  function MatchedUpTo(segs: seq<Segment>, sorted: seq<Entry>, n: nat): set<int>
    requires n <= |sorted|
  {
    IdsUpTo(MatchesFn(segs), sorted, n)
  }

  /** The ids collected while walking the length-sorted entries. */
  function MatchedIds(segs: seq<Segment>, vocab: seq<Entry>): set<int> {
    MatchedUpTo(segs, SortByLength(vocab), |vocab|)
  }

  /** The entries of the paragraph's scoped vocabulary. */
  function EntriesOf(paraVocab: seq<Scoped>): seq<Entry> {
    Map(paraVocab, (s: Scoped) => s.entry)
  }

  /** `matchedVocabIds`: empty without an active paragraph or without
      vocabulary, otherwise the matched ids over the paragraph's text. */
  function MatchedVocab(paragraphs: seq<Paragraph>, activeParaId: Option<int>, paraVocab: seq<Scoped>): set<int> {
    match FindParagraph(paragraphs, activeParaId)
    case None => {}
    case Some(para) =>
      if |paraVocab| == 0 then {} else MatchedIds(Segments(para.content), EntriesOf(paraVocab))
  }

  /** Walking a permutation of the entries collects the same ids. */
  lemma IdsOfPermutation(p: Entry -> bool, sorted: seq<Entry>, vocab: seq<Entry>, id: int)
    requires multiset(sorted) == multiset(vocab)
    ensures id in IdsUpTo(p, sorted, |sorted|) <==> exists v :: v in vocab && p(v) && v.id == id
  {
    IdsUpToSpec(p, sorted, |sorted|, id);
    if id in IdsUpTo(p, sorted, |sorted|) {
      var j :| 0 <= j < |sorted| && p(sorted[j]) && sorted[j].id == id;
      assert sorted[j] in multiset(sorted);
      assert sorted[j] in vocab;
    }
    if v :| v in vocab && p(v) && v.id == id {
      assert v in multiset(vocab);
      var j :| 0 <= j < |sorted| && sorted[j] == v;
    }
  }

  /** An id is matched exactly when an entry with that id occurs in the text,
      in the sense that the preview would highlight some segment for it. The
      sort by length does not change the set. */
  lemma MatchedIdsSpec(segs: seq<Segment>, vocab: seq<Entry>, id: int)
    ensures id in MatchedIds(segs, vocab) <==> exists v :: v in vocab && v.id == id && EntryCover(segs, v) != {}
  {
    SortByLengthDescending(vocab);
    IdsOfPermutation(MatchesFn(segs), SortByLength(vocab), vocab, id);
    forall v ensures MatchesFn(segs)(v) <==> EntryCover(segs, v) != {} {
      EntryMatchesCovers(segs, v);
    }
  }

  /** Every entry that owns a highlighted segment of the preview has its id
      in the matched set: the sidebar never hides an entry the text shows
      highlighted. */
  lemma OwnersMatched(segs: seq<Segment>, vocab: seq<Entry>, k: nat)
    requires k in HighlightMap(segs, vocab)
    ensures HighlightMap(segs, vocab)[k].id in MatchedIds(segs, vocab)
  {
    HighlightMapSpec(segs, vocab, k);
    MatchedIdsSpec(segs, vocab, HighlightMap(segs, vocab)[k].id);
  }

  // ---------------------------------------------------------------------
  // The loops of `matchedVocabIds`

  /** The `i` loop for one pattern: stops at the first position where the
      whole pattern matches. */
  method FindAnywhere(segs: seq<Segment>, parts: seq<seq<string>>) returns (found: bool)
    ensures found == AnyMatchFrom(segs, parts, 0)
  {
    var i := 0;
    while i < |segs|
      invariant i <= |segs|
      invariant AnyMatchFrom(segs, parts, i) == AnyMatchFrom(segs, parts, 0)
      decreases |segs| - i
    {
      var matchedAllParts, _ := MatchPattern(segs, parts, i);
      AnyMatchStep(segs, parts, i);
      if matchedAllParts {
        return true;
      }
      i := i + 1;
    }
    return false;
  }

  lemma AnyMatchStep(segs: seq<Segment>, parts: seq<seq<string>>, i: nat)
    requires i < |segs|
    ensures AnyMatchFrom(segs, parts, i) == (MatchAt(segs, parts, i).Some? || AnyMatchFrom(segs, parts, i + 1))
  {
    assert FoundFn(segs, parts)(i) == MatchAt(segs, parts, i).Some?;
  }

  lemma AnyUpToStep(segs: seq<Segment>, pats: seq<string>, q: nat)
    requires q < |pats|
    ensures AnyPatternMatches(segs, pats, q + 1) == (AnyPatternMatches(segs, pats, q) || PatternMatches(segs, pats[q]))
  {
    assert MatchFn(segs, pats)(q) == PatternMatches(segs, pats[q]);
  }

  /** One pattern of the `patterns.forEach`: skipped when unusable, and adds
      the entry's id when it matches somewhere. */
  method CheckPattern(matched0: set<int>, segs: seq<Segment>, pattern: string, id: int) returns (matched: set<int>)
    ensures matched == matched0 + (if PatternMatches(segs, pattern) then {id} else {})
  {
    matched := matched0;
    var partWordsList := PartWords(pattern);
    if |partWordsList| == 0 || |partWordsList[0]| == 0 {
      return;
    }
    var found := FindAnywhere(segs, partWordsList);
    if found {
      matched := matched + {id};
    }
  }

  /** The patterns of one entry. */
  method CheckEntry(matched0: set<int>, segs: seq<Segment>, v: Entry) returns (matched: set<int>)
    ensures matched == matched0 + (if EntryMatches(segs, v) then {v.id} else {})
  {
    matched := matched0;
    var patterns := Patterns(v);
    var q := 0;
    while q < |patterns|
      invariant q <= |patterns|
      invariant matched == matched0 + (if AnyPatternMatches(segs, patterns, q) then {v.id} else {})
    {
      matched := CheckPattern(matched, segs, patterns[q], v.id);
      AnyUpToStep(segs, patterns, q);
      q := q + 1;
    }
  }

  /** `matchedVocabIds`. */
  method MatchedVocabIds(paragraphs: seq<Paragraph>, activeParaId: Option<int>, paraVocab: seq<Scoped>)
    returns (matched: set<int>)
    ensures matched == MatchedVocab(paragraphs, activeParaId, paraVocab)
  {
    var activePara := FindParagraph(paragraphs, activeParaId);
    if activePara.None? || |paraVocab| == 0 {
      return {};
    }
    var segments := Tokenize(activePara.value.content);
    var sortedVocabs := SortByLength(EntriesOf(paraVocab));
    matched := MatchedIn(segments, sortedVocabs);
  }

  lemma IdsStep(segs: seq<Segment>, sorted: seq<Entry>, e: nat)
    requires e < |sorted|
    ensures MatchedUpTo(segs, sorted, e + 1)
      == MatchedUpTo(segs, sorted, e) + (if EntryMatches(segs, sorted[e]) then {sorted[e].id} else {})
  {
    assert MatchesFn(segs)(sorted[e]) == EntryMatches(segs, sorted[e]);
  }

  /** One step of the entry loop. */
  method NextEntry(matched0: set<int>, segs: seq<Segment>, sorted: seq<Entry>, e: nat) returns (matched: set<int>)
    requires e < |sorted| && matched0 == MatchedUpTo(segs, sorted, e)
    ensures matched == MatchedUpTo(segs, sorted, e + 1)
  {
    matched := CheckEntry(matched0, segs, sorted[e]);
    IdsStep(segs, sorted, e);
  }

  /** The entry loop over the sorted vocabulary. */
  method MatchedIn(segs: seq<Segment>, sorted: seq<Entry>) returns (matched: set<int>)
    ensures matched == MatchedUpTo(segs, sorted, |sorted|)
  {
    matched := {};
    for e := 0 to |sorted|
      invariant matched == MatchedUpTo(segs, sorted, e)
    {
      matched := NextEntry(matched, segs, sorted, e);
    }
  }

  // ---------------------------------------------------------------------
  // The sidebar list

  /** `v.id === editingVocab.id || !v.isGlobal || matchedVocabIds.has(v.id!)`;
      `editingId` is `None` for an entry not yet saved. */
  function ShownFn(editingId: Option<int>, matched: set<int>): Scoped -> bool {
    (s: Scoped) => Some(s.entry.id) == editingId || !s.isGlobal || s.entry.id in matched
  }

  /** The entries listed (and counted) under the editor. */
  function Sidebar(paraVocab: seq<Scoped>, editingId: Option<int>, matched: set<int>): seq<Scoped> {
    Filter(paraVocab, ShownFn(editingId, matched))
  }

  /** With an active paragraph, the sidebar lists the paragraph's own entries,
      the entry being edited, and exactly those inherited entries that occur
      in the paragraph's text; it keeps the order of the vocabulary. */
  lemma SidebarSpec(paragraphs: seq<Paragraph>, activeParaId: Option<int>, paraVocab: seq<Scoped>,
                    editingId: Option<int>, para: Paragraph, x: Scoped)
    requires FindParagraph(paragraphs, activeParaId) == Some(para)
    ensures var list := Sidebar(paraVocab, editingId, MatchedVocab(paragraphs, activeParaId, paraVocab));
      (x in list <==>
        x in paraVocab && (Some(x.entry.id) == editingId || !x.isGlobal ||
          exists v :: v in EntriesOf(paraVocab) && v.id == x.entry.id && EntryCover(Segments(para.content), v) != {}))
  {
    var matched := MatchedVocab(paragraphs, activeParaId, paraVocab);
    if paraVocab != [] {
      MatchedIdsSpec(Segments(para.content), EntriesOf(paraVocab), x.entry.id);
    } else {
      assert Sidebar(paraVocab, editingId, matched) == [];
    }
  }

  // ---------------------------------------------------------------------
  // Example sentences of the entry being edited

  /** `handleAddExample`: appends one empty example. */
  function AddExample(examples: Option<seq<string>>): seq<string> {
    OrEmpty(examples) + [""]
  }

  /** `handleRemoveExample`: drops the example at `index`, leaving a single
      empty example when none would remain. */
  function RemoveExample(examples: Option<seq<string>>, index: int): seq<string> {
    var newExamples := DropAt(OrEmpty(examples), index);
    if |newExamples| > 0 then newExamples else [""]
  }

  /** The example list is never empty after a removal: it loses exactly the
      example at `index` (nothing for an index outside the list), and only
      a removal that would empty it leaves the one blank example. */
  lemma RemoveExampleSpec(examples: Option<seq<string>>, index: int)
    ensures var s := OrEmpty(examples); var r := RemoveExample(examples, index);
      && |r| >= 1
      && (0 <= index < |s| && |s| > 1 ==> r == s[..index] + s[index + 1..] && |r| == |s| - 1)
      && (!(0 <= index < |s|) && s != [] ==> r == s)
      && (|s| <= 1 && (s == [] || index == 0) ==> r == [""])
  {
    var s := OrEmpty(examples);
    if 0 <= index < |s| {
      assert |s[..index] + s[index + 1..]| == |s| - 1;
    }
  }

  /** Removing the example just added gives back the list (or the single
      blank example when the list was empty). */
  lemma AddThenRemove(examples: Option<seq<string>>)
    ensures RemoveExample(Some(AddExample(examples)), |OrEmpty(examples)|)
      == (if OrEmpty(examples) == [] then [""] else OrEmpty(examples))
  {
    var s := OrEmpty(examples);
    assert (s + [""])[..|s|] == s;
  }

  /** `editingVocab.examples?.filter(e => e.trim() !== '') || []`, the list
      stored when the entry is saved. */
  function SaveExamples(examples: Option<seq<string>>): seq<string> {
    match examples
    case None => []
    case Some(s) => Filter(s, NonBlank)
  }

  /** Saving keeps exactly the examples that are not all white space, and
      saving a saved list changes nothing. */
  lemma SaveExamplesSpec(examples: Option<seq<string>>)
    ensures var r := SaveExamples(examples);
      && (forall e :: e in r <==> e in OrEmpty(examples) && !AllSpace(e))
      && |r| <= |OrEmpty(examples)|
      && SaveExamples(Some(r)) == r
  {
    forall e ensures NonBlank(e) <==> !AllSpace(e) {
      TrimAllSpace(e);
    }
    if examples.Some? {
      FilterIdempotent(examples.value, NonBlank);
    }
  }

  /** Saving keeps the examples in their order and with their repetitions:
      an example between two stretches of the list survives in its place
      exactly when it is not blank. */
  lemma SaveExamplesOrder(a: seq<string>, x: string, b: seq<string>)
    ensures SaveExamples(Some(a + [x] + b)) ==
      SaveExamples(Some(a)) + (if NonBlank(x) then [x] else []) + SaveExamples(Some(b))
  {
    FilterAround(a, x, b, NonBlank);
  }
}
