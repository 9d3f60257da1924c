/** The stored records the core reads (`Vocabulary`, `Paragraph` of the
    IndexedDB schema, reduced to the fields the engine uses) and the pattern
    compiler of the editor preview: an entry's `word` and its comma-separated
    `matchPattern` become lower-case patterns, and each pattern becomes a list
    of parts (separated by `...`), each a list of words. */
module Vocab {
  import opened Strs

  /** A vocabulary record. Optional text fields are `Option`s; display-only
      payload (colour, images, notes) is not part of the model. */
  datatype Entry = Entry(
    id: int,
    paragraphId: int,
    word: string,
    matchPattern: Option<string>,
    phonetic: Option<string>,
    partOfSpeech: Option<string>,
    definition: Option<string>,
    translation: Option<string>,
    examples: Option<seq<string>>)

  /** A paragraph record; a missing `excludedWords` is the empty list. */
  datatype Paragraph = Paragraph(id: int, projectId: int, content: string, excludedWords: seq<string>)

  /** An entry as returned by the scope resolver, tagged with `isGlobal`. */
  datatype Scoped = Scoped(entry: Entry, isGlobal: bool)

  /** The separators of `matchPattern`: ASCII and full-width commas. */
  const PatternSeps: set<char> := {',', '，'}

  /** The discontinuity marker inside one pattern. */
  const Ellipsis: string := "..."

  /** `matchPattern?.split(/[,，]/).map(p => p.trim()) || []` */
  function SplitVariants(matchPattern: Option<string>): seq<string> {
    match matchPattern
    case None => []
    case Some(mp) => Map(SplitOnChars(mp, PatternSeps), Trim)
  }

  function Variants(v: Entry): seq<string> {
    SplitVariants(v.matchPattern)
  }

  /** `Boolean` as a filter on strings. */
  function NonEmpty(p: string): bool {
    p != []
  }

  /** `[word, ...variants].filter(Boolean)` */
  function Candidates(word: string, matchPattern: Option<string>): seq<string> {
    Filter([word] + SplitVariants(matchPattern), NonEmpty)
  }

  /** `[v.word, ...variants].filter(Boolean).map(p => p.toLowerCase())` */
  function Patterns(v: Entry): seq<string> {
    Map(Candidates(v.word, v.matchPattern), LowerStr)
  }

  /** `pattern.split('...').map(p => p.trim().split(/\s+/).filter(Boolean))` */
  function PartWords(pattern: string): seq<seq<string>> {
    Map(SplitOnString(pattern, Ellipsis), WordsOfPart)
  }

  /** `p.trim().split(/\s+/).filter(Boolean)` */
  function WordsOfPart(p: string): seq<string> {
    Words(Trim(p))
  }

  /** The guard `partWordsList.length === 0 || partWordsList[0].length === 0`
      that skips a pattern. */
  predicate Usable(parts: seq<seq<string>>) {
    |parts| > 0 && |parts[0]| > 0
  }

  /** What the compiler produces from an entry: every pattern is non-empty and
      lower case; the entry's own word comes first when it is non-empty; every
      non-blank variant appears lower-cased and trimmed; and nothing else
      does. */
  lemma PatternsShape(v: Entry)
    ensures var ps := Patterns(v);
      && (forall p :: p in ps ==> p != [] && LowerStr(p) == p)
      && (v.word != [] ==> ps != [] && ps[0] == LowerStr(v.word))
      && (forall q :: q in Variants(v) && q != [] ==> LowerStr(q) in ps)
      && (forall p :: p in ps ==> p == LowerStr(v.word) || exists q :: q in Variants(v) && p == LowerStr(q))
  {
    PatternsFrom(v);
    PatternsKeep(v);
  }

  /** Every pattern is a lower-cased non-empty candidate. */
  lemma PatternsFrom(v: Entry)
    ensures forall p :: p in Patterns(v) ==>
      && p != [] && LowerStr(p) == p
      && (p == LowerStr(v.word) || exists q :: q in Variants(v) && p == LowerStr(q))
  {
    var cands := [v.word] + Variants(v);
    var kept := Filter(cands, NonEmpty);
    var ps := Patterns(v);
    assert ps == Map(kept, LowerStr);
    forall p | p in ps ensures p != [] && LowerStr(p) == p
      && (p == LowerStr(v.word) || exists q :: q in Variants(v) && p == LowerStr(q))
    {
      var k :| 0 <= k < |ps| && ps[k] == p;
      assert kept[k] in kept;
      LowerStrIdempotent(kept[k]);
      assert kept[k] in cands;
      if kept[k] != v.word {
        assert kept[k] in Variants(v);
      }
    }
  }

  /** Every non-empty candidate becomes a pattern, the word first. */
  lemma PatternsKeep(v: Entry)
    ensures v.word != [] ==> Patterns(v) != [] && Patterns(v)[0] == LowerStr(v.word)
    ensures forall q :: q in Variants(v) && q != [] ==> LowerStr(q) in Patterns(v)
  {
    var vs := SplitVariants(v.matchPattern);
    var kept := Candidates(v.word, v.matchPattern);
    FilterAppend([v.word], vs, NonEmpty);
    assert kept == Filter([v.word], NonEmpty) + Filter(vs, NonEmpty);
    forall q | q in vs && q != [] ensures LowerStr(q) in Patterns(v) {
      assert q in kept;
      MapMember(kept, LowerStr, LowerStr(q));
    }
  }

  /** The parts of a pattern: joined back with `...` the raw parts give the
      pattern; each part's words are non-empty and free of white space, and
      together they are the part's text without its white space. */
  lemma PartWordsShape(pattern: string)
    ensures var raw := SplitOnString(pattern, Ellipsis); var parts := PartWords(pattern);
      && JoinWith(raw, Ellipsis) == pattern
      && |parts| == |raw| && |parts| >= 1
      && (forall k :: 0 <= k < |parts| ==> Concat(parts[k]) == Squeeze(Trim(raw[k])))
      && (forall k, j :: 0 <= k < |parts| && 0 <= j < |parts[k]| ==> parts[k][j] != [] && NoSpace(parts[k][j]))
  {
    var raw := SplitOnString(pattern, Ellipsis);
    var parts := PartWords(pattern);
    SplitOnStringJoin(pattern, Ellipsis);
    assert |parts| == |raw|;
    forall k | 0 <= k < |raw| ensures Concat(parts[k]) == Squeeze(Trim(raw[k])) {
      assert parts[k] == WordsOfPart(raw[k]);
      WordsSqueeze(Trim(raw[k]));
    }
    forall k, j | 0 <= k < |parts| && 0 <= j < |parts[k]| ensures parts[k][j] != [] && NoSpace(parts[k][j]) {
      assert parts[k] == WordsOfPart(raw[k]);
    }
  }
}
