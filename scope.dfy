/** The vocabulary service: which entries a paragraph can see (its own
    entries plus one shared "global" entry per word from elsewhere), the
    per-paragraph exclusion list, the project statistics and the CSV export.
    The database reads become parameters: the paragraphs table is a map from
    id to record, and the vocabulary table a list in primary-key order. */
module Scope {
  import opened Strs
  import opened Vocab

  // ---------------------------------------------------------------------
  // getSmartVocabulary
  // ---------------------------------------------------------------------

  /** A JavaScript `Map` from lower-case word to entry: `keys` lists the keys
      in first-insertion order, which setting an existing key keeps. */
  datatype WordMap = WordMap(keys: seq<string>, entries: map<string, Entry>)

  /** `globalVocabMap.set(k, v)` */
  function MapSet(m: WordMap, k: string, v: Entry): WordMap {
    WordMap(if k in m.entries then m.keys else m.keys + [k], m.entries[k := v])
  }

  /** `v.word.toLowerCase()` */
  function WordKey(v: Entry): string {
    LowerStr(v.word)
  }

  /** `new Set(list.map(v => v.word.toLowerCase()))` */
  function LowerWords(list: seq<Entry>): set<string> {
    Image(list, WordKey)
  }

  /** `new Set(words.map(w => w.toLowerCase()))` */
  function LowerAll(words: seq<string>): set<string> {
    Image(words, LowerStr)
  }

  /** The first filter of the `forEach`: the word is neither a local word nor
      excluded. */
  predicate Candidate(v: Entry, key: Entry -> string, localWords: set<string>, excluded: set<string>) {
    key(v) !in localWords && key(v) !in excluded
  }

  /** One call of the `forEach` callback: a candidate is stored when its word
      is new or its id is strictly larger than the stored one's. */
  function Offer(m: WordMap, v: Entry, key: Entry -> string, localWords: set<string>, excluded: set<string>): WordMap {
    var k := key(v);
    if Candidate(v, key, localWords, excluded) && (k !in m.entries || v.id > m.entries[k].id) then MapSet(m, k, v)
    else m
  }

  /** The map after the callback has run on the first `n` entries. */
  function Collect(all: seq<Entry>, key: Entry -> string, localWords: set<string>, excluded: set<string>, n: nat): (r: WordMap)
    requires n <= |all|
    ensures forall k :: k in r.keys <==> k in r.entries
  {
    if n == 0 then WordMap([], map[])
    else Offer(Collect(all, key, localWords, excluded, n - 1), all[n - 1], key, localWords, excluded)
  }

  /** `Array.from(globalVocabMap.values())`, in key order. */
  function ValuesOf(keys: seq<string>, entries: map<string, Entry>): (r: seq<Entry>)
    requires forall k :: k in keys ==> k in entries
    ensures |r| == |keys|
    ensures forall i :: 0 <= i < |keys| ==> r[i] == entries[keys[i]]
  {
    if keys == [] then [] else [entries[keys[0]]] + ValuesOf(keys[1..], entries)
  }

  function AsLocal(v: Entry): Scoped {
    Scoped(v, false)
  }

  /** `{ ...v, isGlobal: true }` */
  function AsGlobal(v: Entry): Scoped {
    Scoped(v, true)
  }

  function OfParagraph(paragraphId: int): Entry -> bool {
    (v: Entry) => v.paragraphId == paragraphId
  }

  /** `db.vocabulary.where('paragraphId').equals(paragraphId)` */
  function LocalVocab(all: seq<Entry>, paragraphId: int): seq<Entry> {
    Filter(all, OfParagraph(paragraphId))
  }

  /** The global entries a paragraph sees, in the map's key order. */
  function Globals(paragraphs: map<int, Paragraph>, paragraphId: int, all: seq<Entry>): seq<Entry>
    requires paragraphId in paragraphs
  {
    var m := FinalMap(paragraphs, paragraphId, all);
    ValuesOf(m.keys, m.entries)
  }

  /** What `getSmartVocabulary` returns: nothing for a missing paragraph,
      otherwise the local entries followed by the tagged global ones. */
  function SmartVocabulary(paragraphs: map<int, Paragraph>, paragraphId: int, all: seq<Entry>): seq<Scoped> {
    if paragraphId !in paragraphs then []
    else Map(LocalVocab(all, paragraphId), AsLocal) + Map(Globals(paragraphs, paragraphId, all), AsGlobal)
  }

  /** `getSmartVocabulary`: reads the paragraph, collects the local words and
      the excluded words, then fills the global map in one pass over the
      vocabulary table. */
  method GetSmartVocabulary(paragraphs: map<int, Paragraph>, paragraphId: int, all: seq<Entry>)
    returns (result: seq<Scoped>)
    ensures result == SmartVocabulary(paragraphs, paragraphId, all)
  {
    if paragraphId !in paragraphs {
      return [];
    }
    var paragraph := paragraphs[paragraphId];
    var localVocab := LocalVocab(all, paragraphId);
    var localWords := LowerWords(localVocab);
    var excludedWords := LowerAll(paragraph.excludedWords);
    var keys: seq<string> := [];
    var globalVocabMap: map<string, Entry> := map[];
    for i := 0 to |all|
      invariant WordMap(keys, globalVocabMap) == Collect(all, WordKey, localWords, excludedWords, i)
    {
      keys, globalVocabMap := Visit(keys, globalVocabMap, all[i], localWords, excludedWords);
    }
    assert WordMap(keys, globalVocabMap) == FinalMap(paragraphs, paragraphId, all);
    var globalVocab := ValuesOf(keys, globalVocabMap);
    result := Map(localVocab, AsLocal) + Map(globalVocab, AsGlobal);
  }

  /** The `forEach` callback on one entry. */
  method Visit(keys0: seq<string>, globalVocabMap0: map<string, Entry>, v: Entry,
               localWords: set<string>, excludedWords: set<string>)
    returns (keys: seq<string>, globalVocabMap: map<string, Entry>)
    ensures WordMap(keys, globalVocabMap) == Offer(WordMap(keys0, globalVocabMap0), v, WordKey, localWords, excludedWords)
  {
    keys, globalVocabMap := keys0, globalVocabMap0;
    var wordLower := LowerStr(v.word);
    if wordLower !in localWords && wordLower !in excludedWords {
      if wordLower !in globalVocabMap || v.id > globalVocabMap[wordLower].id {
        if wordLower !in globalVocabMap {
          keys := keys + [wordLower];
        }
        globalVocabMap := globalVocabMap[wordLower := v];
      }
    }
  }

  /** The map's keys are distinct lower-case words of candidates, each
      stored under its own word. */
  ghost predicate WellKeyed(m: WordMap, key: Entry -> string, localWords: set<string>, excluded: set<string>) {
    && (forall i, j :: 0 <= i < j < |m.keys| ==> m.keys[i] != m.keys[j])
    && (forall k :: k in m.entries ==> key(m.entries[k]) == k && k !in localWords && k !in excluded)
  }

  /** Every candidate among the first `n` entries has its word in the map,
      with an id at least its own. */
  ghost predicate Covers(all: seq<Entry>, key: Entry -> string, localWords: set<string>, excluded: set<string>, n: nat, m: WordMap)
    requires n <= |all|
  {
    forall i :: 0 <= i < n && Candidate(all[i], key, localWords, excluded) ==>
      key(all[i]) in m.entries && all[i].id <= m.entries[key(all[i])].id
  }

  /** Every stored entry is one of the first `n` entries, and every earlier
      entry with the same word has a strictly smaller id: of the entries
      with the largest id the first one is kept. */
  ghost predicate FirstOfMax(all: seq<Entry>, key: Entry -> string, n: nat, m: WordMap)
    requires n <= |all|
  {
    forall k :: k in m.entries ==>
      exists j :: (0 <= j < n && all[j] == m.entries[k] && key(all[j]) == k &&
        forall i :: 0 <= i < j && key(all[i]) == k ==> all[i].id < all[j].id)
  }

  lemma OfferWellKeyed(m: WordMap, v: Entry, key: Entry -> string, localWords: set<string>, excluded: set<string>)
    requires WellKeyed(m, key, localWords, excluded)
    requires forall k :: k in m.keys <==> k in m.entries
    ensures WellKeyed(Offer(m, v, key, localWords, excluded), key, localWords, excluded)
  {
  }

  lemma OfferCovers(all: seq<Entry>, key: Entry -> string, localWords: set<string>, excluded: set<string>, n: nat, m: WordMap)
    requires n < |all|
    requires Covers(all, key, localWords, excluded, n, m)
    ensures Covers(all, key, localWords, excluded, n + 1, Offer(m, all[n], key, localWords, excluded))
  {
    var m' := Offer(m, all[n], key, localWords, excluded);
    forall i | 0 <= i < n + 1 && Candidate(all[i], key, localWords, excluded)
      ensures key(all[i]) in m'.entries && all[i].id <= m'.entries[key(all[i])].id
    {
      if i < n {
        assert key(all[i]) in m.entries;
      }
    }
  }

  /** One more step keeps, per word, the first entry of largest id. */
  lemma OfferFirstOfMax(all: seq<Entry>, key: Entry -> string, localWords: set<string>, excluded: set<string>, n: nat, m: WordMap)
    requires 0 < n <= |all|
    requires Covers(all, key, localWords, excluded, n - 1, m)
    requires FirstOfMax(all, key, n - 1, m)
    ensures FirstOfMax(all, key, n, Offer(m, all[n - 1], key, localWords, excluded))
  {
    var v := all[n - 1];
    var k0 := key(v);
    var m' := Offer(m, v, key, localWords, excluded);
    forall k | k in m'.entries
      ensures exists j :: (0 <= j < n && all[j] == m'.entries[k] && key(all[j]) == k &&
        forall i :: 0 <= i < j && key(all[i]) == k ==> all[i].id < all[j].id)
    {
      if m' != m && k == k0 {
        forall i | 0 <= i < n - 1 && key(all[i]) == k ensures all[i].id < all[n - 1].id {
          assert Candidate(all[i], key, localWords, excluded);
        }
      } else {
        assert m'.entries[k] == m.entries[k];
        var j :| 0 <= j < n - 1 && all[j] == m.entries[k] && key(all[j]) == k &&
          forall i :: 0 <= i < j && key(all[i]) == k ==> all[i].id < all[j].id;
      }
    }
  }

  /** The map after `n` steps is well keyed. */
  lemma {:induction false} CollectWellKeyed(all: seq<Entry>, key: Entry -> string, localWords: set<string>, excluded: set<string>, n: nat)
    requires n <= |all|
    ensures WellKeyed(Collect(all, key, localWords, excluded, n), key, localWords, excluded)
  {
    if n > 0 {
      var m := Collect(all, key, localWords, excluded, n - 1);
      assert Collect(all, key, localWords, excluded, n) == Offer(m, all[n - 1], key, localWords, excluded);
      CollectWellKeyed(all, key, localWords, excluded, n - 1);
      OfferWellKeyed(m, all[n - 1], key, localWords, excluded);
    }
  }

  /** The map after `n` steps covers every candidate among the first `n`
      entries. */
  lemma {:induction false} CollectCovers(all: seq<Entry>, key: Entry -> string, localWords: set<string>, excluded: set<string>, n: nat)
    requires n <= |all|
    ensures Covers(all, key, localWords, excluded, n, Collect(all, key, localWords, excluded, n))
  {
    if n > 0 {
      var m := Collect(all, key, localWords, excluded, n - 1);
      assert Collect(all, key, localWords, excluded, n) == Offer(m, all[n - 1], key, localWords, excluded);
      CollectCovers(all, key, localWords, excluded, n - 1);
      OfferCovers(all, key, localWords, excluded, n - 1, m);
    }
  }

  /** The map after `n` steps keeps, per word, the first entry of largest
      id. */
  lemma {:induction false} CollectFirstOfMax(all: seq<Entry>, key: Entry -> string, localWords: set<string>, excluded: set<string>, n: nat)
    requires n <= |all|
    ensures FirstOfMax(all, key, n, Collect(all, key, localWords, excluded, n))
  {
    if n > 0 {
      var m := Collect(all, key, localWords, excluded, n - 1);
      assert Covers(all, key, localWords, excluded, n - 1, m) && FirstOfMax(all, key, n - 1, m) by {
        CollectFirstOfMax(all, key, localWords, excluded, n - 1);
        CollectCovers(all, key, localWords, excluded, n - 1);
      }
      OfferFirstOfMax(all, key, localWords, excluded, n, m);
      assert Collect(all, key, localWords, excluded, n) == Offer(m, all[n - 1], key, localWords, excluded);
    }
  }

  /** The values of the final map are entries of the table whose key is
      neither local nor excluded. */
  lemma CollectedValues(all: seq<Entry>, key: Entry -> string, localWords: set<string>, excluded: set<string>)
    ensures var m := Collect(all, key, localWords, excluded, |all|);
      forall v :: v in ValuesOf(m.keys, m.entries) ==> v in all && key(v) !in localWords && key(v) !in excluded
  {
    var m := Collect(all, key, localWords, excluded, |all|);
    var vs := ValuesOf(m.keys, m.entries);
    CollectWellKeyed(all, key, localWords, excluded, |all|);
    CollectFirstOfMax(all, key, localWords, excluded, |all|);
    forall v | v in vs ensures v in all && key(v) !in localWords && key(v) !in excluded {
      var p :| 0 <= p < |vs| && vs[p] == v;
      var k := m.keys[p];
      assert v == m.entries[k];
    }
  }

  /** The shape of the result: a missing paragraph gives nothing; otherwise
      the paragraph's own entries come first, untagged and in table order,
      and every later element is tagged global. */
  lemma SmartVocabularyShape(paragraphs: map<int, Paragraph>, paragraphId: int, all: seq<Entry>)
    ensures var r := SmartVocabulary(paragraphs, paragraphId, all); var local := LocalVocab(all, paragraphId);
      && (paragraphId !in paragraphs ==> r == [])
      && (paragraphId in paragraphs ==>
            && |local| <= |r|
            && (forall i :: 0 <= i < |local| ==> r[i] == Scoped(local[i], false))
            && (forall i :: |local| <= i < |r| ==> r[i].isGlobal)
            && (forall v :: v in local <==> v in all && v.paragraphId == paragraphId))
  {
  }

  /** The map `getSmartVocabulary` ends with. */
  function FinalMap(paragraphs: map<int, Paragraph>, paragraphId: int, all: seq<Entry>): WordMap
    requires paragraphId in paragraphs
  {
    Collect(all, WordKey, LowerWords(LocalVocab(all, paragraphId)), LowerAll(paragraphs[paragraphId].excludedWords), |all|)
  }

  /** Every global entry is an entry of the table whose lower-case word is
      neither one of the local lower-case words nor one of the lower-cased
      excluded words. */
  lemma GlobalsAllowed(paragraphs: map<int, Paragraph>, paragraphId: int, all: seq<Entry>)
    requires paragraphId in paragraphs
    ensures forall g :: g in Globals(paragraphs, paragraphId, all) ==>
      && g in all
      && LowerStr(g.word) !in LowerWords(LocalVocab(all, paragraphId))
      && LowerStr(g.word) !in LowerAll(paragraphs[paragraphId].excludedWords)
  {
    CollectedValues(all, WordKey, LowerWords(LocalVocab(all, paragraphId)), LowerAll(paragraphs[paragraphId].excludedWords));
  }

  /** Each global entry has the largest id among the table's entries with
      its lower-case word. */
  lemma GlobalsLatest(paragraphs: map<int, Paragraph>, paragraphId: int, all: seq<Entry>)
    requires paragraphId in paragraphs
    ensures forall g, v :: g in Globals(paragraphs, paragraphId, all) && v in all && LowerStr(v.word) == LowerStr(g.word) ==>
      v.id <= g.id
  {
    var lw := LowerWords(LocalVocab(all, paragraphId));
    var xw := LowerAll(paragraphs[paragraphId].excludedWords);
    var m := FinalMap(paragraphs, paragraphId, all);
    var gs := Globals(paragraphs, paragraphId, all);
    CollectWellKeyed(all, WordKey, lw, xw, |all|);
    CollectCovers(all, WordKey, lw, xw, |all|);
    forall g, v | g in gs && v in all && LowerStr(v.word) == LowerStr(g.word) ensures v.id <= g.id {
      var p :| 0 <= p < |gs| && gs[p] == g;
      var k := m.keys[p];
      assert g == m.entries[k] && LowerStr(g.word) == k;
      var i :| 0 <= i < |all| && all[i] == v;
      assert Candidate(all[i], WordKey, lw, xw);
    }
  }

  /** The entry kept under a key is the first of largest id among the
      candidates with that key. */
  lemma KeptFirst(all: seq<Entry>, key: Entry -> string, localWords: set<string>, excluded: set<string>, k: string)
    requires k in Collect(all, key, localWords, excluded, |all|).entries
    ensures var e := Collect(all, key, localWords, excluded, |all|).entries[k];
      exists j :: (0 <= j < |all| && all[j] == e &&
        forall i :: 0 <= i < j && key(all[i]) == k ==> all[i].id < e.id)
  {
    CollectFirstOfMax(all, key, localWords, excluded, |all|);
  }

  /** On a tie of ids the first such entry in table order is kept: every
      earlier entry with the same lower-case word has a smaller id. */
  lemma GlobalsFirstOfLatest(paragraphs: map<int, Paragraph>, paragraphId: int, all: seq<Entry>, g: Entry)
    requires paragraphId in paragraphs && g in Globals(paragraphs, paragraphId, all)
    ensures exists j :: (0 <= j < |all| && all[j] == g &&
      forall i :: 0 <= i < j && LowerStr(all[i].word) == LowerStr(g.word) ==> all[i].id < g.id)
  {
    var lw := LowerWords(LocalVocab(all, paragraphId));
    var xw := LowerAll(paragraphs[paragraphId].excludedWords);
    var m := FinalMap(paragraphs, paragraphId, all);
    var gs := Globals(paragraphs, paragraphId, all);
    CollectWellKeyed(all, WordKey, lw, xw, |all|);
    var p :| 0 <= p < |gs| && gs[p] == g;
    var k := m.keys[p];
    assert g == m.entries[k] && WordKey(g) == k;
    KeptFirst(all, WordKey, lw, xw, k);
    var j :| 0 <= j < |all| && all[j] == g && forall i :: 0 <= i < j && WordKey(all[i]) == k ==> all[i].id < g.id;
    assert forall i :: 0 <= i < j && LowerStr(all[i].word) == LowerStr(g.word) ==> all[i].id < g.id;
  }

  /** No two global entries share a lower-case word. */
  lemma GlobalsUnique(paragraphs: map<int, Paragraph>, paragraphId: int, all: seq<Entry>)
    requires paragraphId in paragraphs
    ensures var gs := Globals(paragraphs, paragraphId, all);
      forall i, j :: 0 <= i < j < |gs| ==> LowerStr(gs[i].word) != LowerStr(gs[j].word)
  {
    var lw := LowerWords(LocalVocab(all, paragraphId));
    var xw := LowerAll(paragraphs[paragraphId].excludedWords);
    var m := FinalMap(paragraphs, paragraphId, all);
    var gs := Globals(paragraphs, paragraphId, all);
    CollectWellKeyed(all, WordKey, lw, xw, |all|);
    forall i, j | 0 <= i < j < |gs| ensures LowerStr(gs[i].word) != LowerStr(gs[j].word) {
      assert LowerStr(gs[i].word) == m.keys[i] && LowerStr(gs[j].word) == m.keys[j];
    }
  }

  /** Every entry of the table whose lower-case word is neither local nor
      excluded is represented by a global entry with that word. */
  lemma GlobalsComplete(paragraphs: map<int, Paragraph>, paragraphId: int, all: seq<Entry>)
    requires paragraphId in paragraphs
    ensures forall v ::
      (v in all && LowerStr(v.word) !in LowerWords(LocalVocab(all, paragraphId))
       && LowerStr(v.word) !in LowerAll(paragraphs[paragraphId].excludedWords)) ==>
      exists g :: g in Globals(paragraphs, paragraphId, all) && LowerStr(g.word) == LowerStr(v.word)
  {
    var lw := LowerWords(LocalVocab(all, paragraphId));
    var xw := LowerAll(paragraphs[paragraphId].excludedWords);
    var m := FinalMap(paragraphs, paragraphId, all);
    var gs := Globals(paragraphs, paragraphId, all);
    CollectWellKeyed(all, WordKey, lw, xw, |all|);
    CollectCovers(all, WordKey, lw, xw, |all|);
    forall v | v in all && LowerStr(v.word) !in lw && LowerStr(v.word) !in xw
      ensures exists g :: g in gs && LowerStr(g.word) == LowerStr(v.word)
    {
      var i :| 0 <= i < |all| && all[i] == v;
      assert Candidate(all[i], WordKey, lw, xw);
      var k := LowerStr(v.word);
      assert k in m.keys;
      var p :| 0 <= p < |m.keys| && m.keys[p] == k;
      assert gs[p] in gs && LowerStr(gs[p].word) == k;
    }
  }

  // ---------------------------------------------------------------------
  // excludeWordFromParagraph / includeWordInParagraph
  // ---------------------------------------------------------------------

  /** `excludeWordFromParagraph`: appends `word` to the paragraph's exclusion
      list unless it is literally present; a missing paragraph is left
      alone. */
  function ExcludeWord(paragraphs: map<int, Paragraph>, paragraphId: int, word: string): (r: map<int, Paragraph>)
    ensures paragraphId !in paragraphs ==> r == paragraphs
    ensures paragraphId in paragraphs ==>
      && r.Keys == paragraphs.Keys
      && (forall id :: id in r && id != paragraphId ==> r[id] == paragraphs[id])
      && r[paragraphId] == paragraphs[paragraphId].(excludedWords := r[paragraphId].excludedWords)
      && word in r[paragraphId].excludedWords
      && (forall w :: w in r[paragraphId].excludedWords <==> w in paragraphs[paragraphId].excludedWords || w == word)
    ensures paragraphId in paragraphs ==>
      r[paragraphId].excludedWords ==
        if word in paragraphs[paragraphId].excludedWords then paragraphs[paragraphId].excludedWords
        else paragraphs[paragraphId].excludedWords + [word]
  {
    if paragraphId !in paragraphs then paragraphs
    else
      var excludedWords := paragraphs[paragraphId].excludedWords;
      if word in excludedWords then paragraphs
      else paragraphs[paragraphId := paragraphs[paragraphId].(excludedWords := excludedWords + [word])]
  }

  function Other(word: string): string -> bool {
    (w: string) => w != word
  }

  /** `includeWordInParagraph`: removes every literal occurrence of `word`
      from the paragraph's exclusion list; a missing paragraph is left
      alone. */
  function IncludeWord(paragraphs: map<int, Paragraph>, paragraphId: int, word: string): (r: map<int, Paragraph>)
    ensures paragraphId !in paragraphs ==> r == paragraphs
    ensures paragraphId in paragraphs ==>
      && r.Keys == paragraphs.Keys
      && (forall id :: id in r && id != paragraphId ==> r[id] == paragraphs[id])
      && r[paragraphId] == paragraphs[paragraphId].(excludedWords := r[paragraphId].excludedWords)
      && (forall w :: w in r[paragraphId].excludedWords <==> w in paragraphs[paragraphId].excludedWords && w != word)
  {
    if paragraphId !in paragraphs then paragraphs
    else
      var excludedWords := paragraphs[paragraphId].excludedWords;
      paragraphs[paragraphId := paragraphs[paragraphId].(excludedWords := Filter(excludedWords, Other(word)))]
  }

  /** Excluding twice is excluding once. */
  lemma ExcludeIdempotent(paragraphs: map<int, Paragraph>, paragraphId: int, word: string)
    ensures ExcludeWord(ExcludeWord(paragraphs, paragraphId, word), paragraphId, word)
         == ExcludeWord(paragraphs, paragraphId, word)
  {
  }

  /** Including keeps the other words in their order, and including twice is
      including once. */
  lemma IncludeKeepsOrder(paragraphs: map<int, Paragraph>, paragraphId: int, word: string)
    requires paragraphId in paragraphs
    ensures IncludeWord(paragraphs, paragraphId, word)[paragraphId].excludedWords
         == Filter(paragraphs[paragraphId].excludedWords, Other(word))
    ensures IncludeWord(IncludeWord(paragraphs, paragraphId, word), paragraphId, word)
         == IncludeWord(paragraphs, paragraphId, word)
  {
    var ex := paragraphs[paragraphId].excludedWords;
    FilterIdempotent(ex, Other(word));
    var once := IncludeWord(paragraphs, paragraphId, word);
    assert once[paragraphId] == paragraphs[paragraphId].(excludedWords := Filter(ex, Other(word)));
  }

  /** Including a word that was absent right after excluding it restores the
      table. */
  lemma IncludeUndoesExclude(paragraphs: map<int, Paragraph>, paragraphId: int, word: string)
    requires paragraphId in paragraphs ==> word !in paragraphs[paragraphId].excludedWords
    ensures IncludeWord(ExcludeWord(paragraphs, paragraphId, word), paragraphId, word) == paragraphs
  {
    if paragraphId in paragraphs {
      var ex := paragraphs[paragraphId].excludedWords;
      FilterAppend(ex, [word], Other(word));
      assert forall k :: 0 <= k < |ex| ==> Other(word)(ex[k]);
      FilterKeepsAll(ex, Other(word));
      var r := IncludeWord(ExcludeWord(paragraphs, paragraphId, word), paragraphId, word);
      assert r[paragraphId] == paragraphs[paragraphId];
    }
  }

  /** After a word is excluded from a paragraph, no global entry the
      paragraph sees has that word, whatever its case. */
  lemma ExcludeHides(paragraphs: map<int, Paragraph>, paragraphId: int, word: string, all: seq<Entry>)
    requires paragraphId in paragraphs
    ensures var r := SmartVocabulary(ExcludeWord(paragraphs, paragraphId, word), paragraphId, all);
      forall s :: s in r && s.isGlobal ==> LowerStr(s.entry.word) != LowerStr(word)
  {
    var ps := ExcludeWord(paragraphs, paragraphId, word);
    GlobalsTagged(ps, paragraphId, all);
    GlobalsAllowed(ps, paragraphId, all);
    var ex := ps[paragraphId].excludedWords;
    var q :| 0 <= q < |ex| && ex[q] == word;
    assert LowerStr(word) in LowerAll(ex);
  }

  /** The elements tagged global are exactly the global entries. */
  lemma GlobalsTagged(paragraphs: map<int, Paragraph>, paragraphId: int, all: seq<Entry>)
    requires paragraphId in paragraphs
    ensures forall s :: s in SmartVocabulary(paragraphs, paragraphId, all) && s.isGlobal ==>
      s.entry in Globals(paragraphs, paragraphId, all)
  {
    TaggedPart(LocalVocab(all, paragraphId), Globals(paragraphs, paragraphId, all));
  }

  lemma TaggedPart(local: seq<Entry>, gs: seq<Entry>)
    ensures forall s :: s in Map(local, AsLocal) + Map(gs, AsGlobal) && s.isGlobal ==> s.entry in gs
  {
    var r := Map(local, AsLocal) + Map(gs, AsGlobal);
    forall s | s in r && s.isGlobal ensures s.entry in gs {
      var p :| 0 <= p < |r| && r[p] == s;
      assert p >= |local|;
      assert r[p] == AsGlobal(gs[p - |local|]);
    }
  }

  // ---------------------------------------------------------------------
  // getVocabularyStats
  // ---------------------------------------------------------------------

  datatype Stats = Stats(totalWords: nat, uniqueWords: nat, paragraphCount: nat)

  /** No two entries share a lower-case word. */
  predicate DistinctWords(list: seq<Entry>) {
    forall i, j :: 0 <= i < j < |list| ==> LowerStr(list[i].word) != LowerStr(list[j].word)
  }

  /** The case-insensitive words of a list are the lower-cased word of each entry. */
  lemma LowerWordsSet(list: seq<Entry>)
    ensures LowerWords(list) == set v | v in list :: LowerStr(v.word)
  {
    var img := LowerWords(list);
    var words := set v | v in list :: LowerStr(v.word);
    forall k | k in img ensures k in words {
      var i :| 0 <= i < |list| && WordKey(list[i]) == k;
      assert list[i] in list;
    }
    forall k | k in words ensures k in img {
      var v :| v in list && LowerStr(v.word) == k;
      var i :| 0 <= i < |list| && list[i] == v;
      assert WordKey(list[i]) in img;
    }
  }

  /** `getVocabularyStats` over the project's entries and paragraphs. */
  function VocabularyStats(vocabList: seq<Entry>, paragraphs: seq<Paragraph>): (r: Stats)
    ensures r.totalWords == |vocabList| && r.paragraphCount == |paragraphs|
    ensures r.uniqueWords <= r.totalWords
    ensures r.uniqueWords == r.totalWords <==> DistinctWords(vocabList)
    ensures r.uniqueWords == |set v | v in vocabList :: LowerStr(v.word)|
  {
    ImageCount(vocabList, WordKey);
    LowerWordsSet(vocabList);
    Stats(|vocabList|, |LowerWords(vocabList)|, |paragraphs|)
  }

  // ---------------------------------------------------------------------
  // exportToCSV
  // ---------------------------------------------------------------------

  const Headers: seq<string> := ["单词", "音标", "词性", "英文释义", "中文释义", "例句"]

  /** `` `"${cell}"` `` */
  function Quote(cell: string): string {
    "\"" + cell + "\""
  }

  /** `row.map(cell => `"${cell}"`).join(',')` */
  function CsvLine(row: seq<string>): string {
    JoinWith(Map(row, Quote), ",")
  }

  /** A template literal of an optional string: JavaScript prints a missing
      value as `undefined`. */
  function Interpolate(x: Option<string>): string {
    match x
    case None => "undefined"
    case Some(s) => s
  }

  /** `x || ''` */
  function OrBlank(x: Option<string>): string {
    match x
    case None => ""
    case Some(s) => s
  }

  /** The row as written: `v.examples.join('; ')` throws on an entry without
      an examples list (`None`), and the other optional cells are
      interpolated. */
  function RowAsWritten(v: Entry): Option<seq<string>> {
    match v.examples
    case None => None
    case Some(ex) =>
      Some([v.word, Interpolate(v.phonetic), OrBlank(v.partOfSpeech), Interpolate(v.definition),
            Interpolate(v.translation), JoinWith(ex, "; ")])
  }

  function LinesAsWritten(list: seq<Entry>): Option<seq<string>> {
    if list == [] then Some([])
    else match (RowAsWritten(list[0]), LinesAsWritten(list[1..]))
      case (Some(row), Some(rest)) => Some([CsvLine(row)] + rest)
      case _ => None
  }

  /** `exportToCSV` as written: `None` when it throws. */
  function ExportAsWritten(list: seq<Entry>): Option<string> {
    match LinesAsWritten(list)
    case None => None
    case Some(lines) => Some(JoinWith([JoinWith(Headers, ",")] + lines, "\n"))
  }

  /** A record without a phonetic: its cell reads `undefined` in the export
      as written, where the corrected export leaves it empty. */
  lemma ExportPrintsUndefined(v: Entry)
    requires v.phonetic.None? && v.definition.Some? && v.translation.Some? && v.examples.Some?
    ensures Row(v)[1] == ""
    ensures ExportAsWritten([v]) == Some(HeaderLine + "\n" + CsvLine(Row(v)[1 := "undefined"]))
    ensures ExportToCsv([v]) == HeaderLine + "\n" + CsvLine(Row(v))
  {
    var row := Row(v)[1 := "undefined"];
    var line := CsvLine(row);
    assert row == [v.word, "undefined", OrBlank(v.partOfSpeech), OrBlank(v.definition), OrBlank(v.translation),
      JoinWith(v.examples.value, "; ")];
    assert RowAsWritten(v) == Some(row);
    assert LinesAsWritten([v]) == Some([line]) by {
      assert [v][1..] == [];
      assert LinesAsWritten([]) == Some([]);
      assert [line] + [] == [line];
    }
    assert Map([v], RowLine) == [RowLine(v)];
    HeaderLineJoin();
    JoinTwo(HeaderLine, line, "\n");
    JoinTwo(HeaderLine, RowLine(v), "\n");
  }

  lemma JoinTwo(a: string, b: string, sep: string)
    ensures JoinWith([a, b], sep) == a + sep + b
  {
    assert [a, b][1..] == [b];
  }

  /** A record without an examples list makes the whole export fail. */
  lemma ExportFailsWithoutExamples(list: seq<Entry>)
    requires exists v :: v in list && v.examples.None?
    ensures ExportAsWritten(list).None?
  {
    LinesFail(list);
  }

  lemma {:induction false} LinesFail(list: seq<Entry>)
    requires exists v :: v in list && v.examples.None?
    ensures LinesAsWritten(list).None?
  {
    if list[0].examples.Some? {
      var v :| v in list && v.examples.None?;
      assert v in list[1..];
      LinesFail(list[1..]);
    }
  }

  /** The row with every missing optional cell left empty. */
  function Row(v: Entry): (r: seq<string>)
    ensures |r| == |Headers| && r[0] == v.word
  {
    [v.word, OrBlank(v.phonetic), OrBlank(v.partOfSpeech), OrBlank(v.definition), OrBlank(v.translation),
     JoinWith(OrEmpty(v.examples), "; ")]
  }

  function RowLine(v: Entry): string {
    CsvLine(Row(v))
  }

  /** The export with missing cells left empty. */
  function ExportToCsv(list: seq<Entry>): string {
    JoinWith([JoinWith(Headers, ",")] + Map(list, RowLine), "\n")
  }

  /** On records that have every optional text field, the two exports
      agree. */
  lemma {:induction false} ExportAgrees(list: seq<Entry>)
    requires forall v :: v in list ==> v.phonetic.Some? && v.definition.Some? && v.translation.Some? && v.examples.Some?
    ensures ExportAsWritten(list) == Some(ExportToCsv(list))
  {
    LinesAgree(list);
  }

  lemma {:induction false} LinesAgree(list: seq<Entry>)
    requires forall v :: v in list ==> v.phonetic.Some? && v.definition.Some? && v.translation.Some? && v.examples.Some?
    ensures LinesAsWritten(list) == Some(Map(list, RowLine))
  {
    if list != [] {
      assert list[0] in list;
      assert forall v :: v in list[1..] ==> v in list;
      LinesAgree(list[1..]);
      assert RowAsWritten(list[0]) == Some(Row(list[0]));
    }
  }

  /** A quoted line is the cells joined by `","` between an opening and a
      closing quote. */
  lemma {:induction false} CsvLineQuotes(row: seq<string>)
    requires row != []
    ensures CsvLine(row) == "\"" + JoinWith(row, "\",\"") + "\""
  {
    if |row| > 1 {
      var rest := row[1..];
      CsvLineQuotes(rest);
      var q := Map(row, Quote);
      assert q[1..] == Map(rest, Quote);
      var j := JoinWith(rest, "\",\"");
      assert CsvLine(row) == Quote(row[0]) + "," + ("\"" + j + "\"");
      assert JoinWith(row, "\",\"") == row[0] + "\",\"" + j;
      assert "\"," + "\"" == "\",\"";
    }
  }

  /** Free of line breaks. */
  predicate OneLine(s: string) {
    forall j :: 0 <= j < |s| ==> s[j] != '\n'
  }

  /** The header line. */
  const HeaderLine: string := "单词,音标,词性,英文释义,中文释义,例句"

  lemma HeaderLineJoin()
    ensures JoinWith(Headers, ",") == HeaderLine
  {
    assert JoinWith(Headers[5..], ",") == "例句";
    assert JoinWith(Headers[4..], ",") == "中文释义" + "," + "例句";
    assert JoinWith(Headers[3..], ",") == "英文释义" + "," + "中文释义" + "," + "例句";
    assert JoinWith(Headers[2..], ",") == "词性" + "," + "英文释义" + "," + "中文释义" + "," + "例句";
    assert JoinWith(Headers[1..], ",") == "音标" + "," + "词性" + "," + "英文释义" + "," + "中文释义" + "," + "例句";
  }

  lemma HeaderOneLine()
    ensures OneLine(HeaderLine)
  {
    HeaderLineJoin();
    assert forall c :: c in Headers ==> OneLine(c);
    JoinKeepsOneLine(Headers, ",");
  }

  /** A record's line is its six cells between quotes, joined by `","`, and
      holds no line break when none of the cells does. */
  lemma RowLineShape(v: Entry)
    ensures RowLine(v) == "\"" + JoinWith(Row(v), "\",\"") + "\""
    ensures (forall c :: c in Row(v) ==> OneLine(c)) ==> OneLine(RowLine(v))
  {
    var row := Row(v);
    CsvLineQuotes(row);
    if forall c :: c in row ==> OneLine(c) {
      JoinKeepsOneLine(row, "\",\"");
    }
  }

  /** When no cell holds a line break, the export has the header line and
      then exactly one line per record, in order, each made of the record's
      six quoted cells. */
  lemma ExportLines(list: seq<Entry>)
    requires forall v, c :: v in list && c in Row(v) ==> OneLine(c)
    ensures var lines := SplitOnChars(ExportToCsv(list), {'\n'});
      && |lines| == |list| + 1
      && lines[0] == HeaderLine
      && (forall k :: 0 <= k < |list| ==> lines[k + 1] == "\"" + JoinWith(Row(list[k]), "\",\"") + "\"")
  {
    var body := Map(list, RowLine);
    var parts := [JoinWith(Headers, ",")] + body;
    HeaderLineJoin();
    forall k | 0 <= k < |list|
      ensures body[k] == "\"" + JoinWith(Row(list[k]), "\",\"") + "\"" && OneLine(body[k])
    {
      assert list[k] in list;
      RowLineShape(list[k]);
    }
    HeaderOneLine();
    assert forall k :: 0 <= k < |parts| ==> OneLine(parts[k]);
    JoinThenSplit(parts, '\n');
  }

  lemma {:induction false} JoinKeepsOneLine(parts: seq<string>, sep: string)
    requires OneLine(sep) && forall c :: c in parts ==> OneLine(c)
    ensures OneLine(JoinWith(parts, sep))
  {
    if |parts| > 1 {
      assert parts[0] in parts;
      assert forall c :: c in parts[1..] ==> c in parts;
      JoinKeepsOneLine(parts[1..], sep);
    }
  }
}
