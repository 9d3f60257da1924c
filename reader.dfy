/** The reading view (`ReaderEngine`): its `groups` are the segments of the
    shared tokenizer, and each word group is looked up in the highlighted
    entries by a single-word, case-insensitive, first-in-list match. */
module Reader {
  import opened Strs
  import opened Vocab
  import opened Tokenizer

  /** `hw.matchPattern?.split(',').map(p => p.trim().toLowerCase())`: only the
      ASCII comma separates variants here. */
  function ReaderVariants(hw: Entry): seq<string> {
    match hw.matchPattern
    case None => []
    case Some(mp) => Map(SplitOnChars(mp, {','}), CleanItem)
  }

  /** `p.trim().toLowerCase()` */
  function CleanItem(p: string): string {
    LowerStr(Trim(p))
  }

  /** `isExact || isPattern` for an already lower-cased word. */
  predicate Matches(hw: Entry, cleanWord: string) {
    LowerStr(hw.word) == cleanWord || cleanWord in ReaderVariants(hw)
  }

  /** The match in terms of the raw pattern text: the word equals the entry's
      lower-cased word, or one comma-separated item of `matchPattern`, trimmed
      and lower-cased. */
  lemma MatchesSpec(hw: Entry, cleanWord: string)
    ensures Matches(hw, cleanWord) <==>
      (|| LowerStr(hw.word) == cleanWord
       || (hw.matchPattern.Some?
           && exists p :: p in SplitOnChars(hw.matchPattern.value, {','}) && CleanItem(p) == cleanWord))
  {
    if hw.matchPattern.Some? {
      MapMember(SplitOnChars(hw.matchPattern.value, {','}), CleanItem, cleanWord);
    }
  }

  /** `list.find(p)`: the first element, in list order, that satisfies
      `p`. */
  function FirstOf(list: seq<Entry>, p: Entry -> bool): (r: Option<Entry>)
    ensures r.Some? <==> exists k :: 0 <= k < |list| && p(list[k])
    ensures r.Some? ==> r.value in list && p(r.value)
  {
    if list == [] then None
    else if p(list[0]) then Some(list[0])
    else
      var r := FirstOf(list[1..], p);
      assert forall k :: 1 <= k < |list| ==> list[k] == list[1..][k - 1];
      r
  }

  lemma {:induction false} FirstOfFirst(list: seq<Entry>, p: Entry -> bool, j: nat)
    requires j < |list| && p(list[j])
    requires forall m :: 0 <= m < j ==> !p(list[m])
    ensures FirstOf(list, p) == Some(list[j])
  {
    if j > 0 {
      assert forall m :: 0 <= m < j - 1 ==> list[1..][m] == list[m + 1];
      FirstOfFirst(list[1..], p, j - 1);
    }
  }

  lemma {:induction false} FirstOfAppend(a: seq<Entry>, b: seq<Entry>, p: Entry -> bool)
    ensures FirstOf(a + b, p) == if FirstOf(a, p).Some? then FirstOf(a, p) else FirstOf(b, p)
  {
    if a == [] {
      assert a + b == b;
    } else {
      assert (a + b)[1..] == a[1..] + b;
      FirstOfAppend(a[1..], b, p);
    }
  }

  function MatchFn(cleanWord: string): Entry -> bool {
    (hw: Entry) => Matches(hw, cleanWord)
  }

  /** `highlightedWords.find(hw => isExact || isPattern)` */
  function Find(list: seq<Entry>, cleanWord: string): (r: Option<Entry>)
    ensures r.Some? <==> exists k :: 0 <= k < |list| && Matches(list[k], cleanWord)
    ensures r.Some? ==> r.value in list && Matches(r.value, cleanWord)
  {
    FirstOf(list, MatchFn(cleanWord))
  }

  /** When several entries match, the earliest one in the list wins: there
      is no ordering by length and no preference among matches. */
  lemma FindFirst(list: seq<Entry>, cleanWord: string, j: nat)
    requires j < |list| && Matches(list[j], cleanWord)
    requires forall m :: 0 <= m < j ==> !Matches(list[m], cleanWord)
    ensures Find(list, cleanWord) == Some(list[j])
  {
    FirstOfFirst(list, MatchFn(cleanWord), j);
  }

  /** Looking up in a concatenation looks in the first list first. */
  lemma FindAppend(a: seq<Entry>, b: seq<Entry>, cleanWord: string)
    ensures Find(a + b, cleanWord) == if Find(a, cleanWord).Some? then Find(a, cleanWord) else Find(b, cleanWord)
  {
    FirstOfAppend(a, b, MatchFn(cleanWord));
  }

  /** The entry a group shows: white space and mark groups are not looked up;
      a word group is looked up by `(group.word || group.content)`
      lower-cased. */
  function Lookup(list: seq<Entry>, g: Segment): (r: Option<Entry>)
    ensures (g.Space? || g.Punct?) ==> r.None?
    ensures r.Some? ==> r.value in list && Matches(r.value, LowerStr(g.Key()))
    ensures (g.Word? || g.WordWithPunct?) && (exists k :: 0 <= k < |list| && Matches(list[k], LowerStr(g.Key()))) ==> r.Some?
  {
    if g.Space? || g.Punct? then None else Find(list, LowerStr(g.Key()))
  }

  /** A merged group is looked up by its word alone: the attached mark and
      the raw index make no difference. */
  lemma MergedLooksAtWord(list: seq<Entry>, w: string, p: string, i: nat, j: nat)
    ensures Lookup(list, WordWithPunct(w, p, i)) == Lookup(list, Word(w, j))
  {
  }

  /** The lookup ignores the case of ASCII letters in the text. */
  lemma LookupIgnoresCase(list: seq<Entry>, w: string, i: nat)
    ensures Lookup(list, Word(w, i)) == Lookup(list, Word(LowerStr(w), i))
  {
    LowerStrIdempotent(w);
  }

  /** `isHighlighted={!!matchedVocab}` */
  predicate Highlighted(list: seq<Entry>, g: Segment) {
    Lookup(list, g).Some?
  }

  /** `matchedVocab && onWordClick?.(matchedVocab.word)`: the word a click on
      the group reports, if any. */
  function Click(list: seq<Entry>, g: Segment): (r: Option<string>)
    ensures r.Some? <==> Highlighted(list, g)
    ensures r.Some? ==> exists v :: v in list && v.word == r.value && Matches(v, LowerStr(g.Key()))
  {
    match Lookup(list, g)
    case None => None
    case Some(v) => Some(v.word)
  }

  /** The highlighted groups of a text are exactly its word groups whose
      lower-cased word is matched by some entry. */
  lemma HighlightedGroups(list: seq<Entry>, text: string, k: nat)
    requires k < |Segments(text)|
    ensures var g := Segments(text)[k];
      Highlighted(list, g) <==>
        (g.Word? || g.WordWithPunct?) && exists v :: v in list && Matches(v, LowerStr(g.Key()))
  {
    var g := Segments(text)[k];
    if g.Word? || g.WordWithPunct? {
      if exists v :: v in list && Matches(v, LowerStr(g.Key())) {
        var v :| v in list && Matches(v, LowerStr(g.Key()));
        var m :| 0 <= m < |list| && list[m] == v;
      }
    }
  }
}
