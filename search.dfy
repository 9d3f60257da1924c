/** The search for example sentences across the library: every sentence of
    every paragraph (but the excluded one) that mentions the entry's word or
    one of its variants as a whole word, ignoring case, with the title of its
    article; then one sentence per lower-cased text. The expression
    `\b(p1|p2|…)\b` with the `gi` flags is modelled directly on the literal
    alternatives. The database reads become parameters. */
module Search {
  import opened Strs
  import opened Vocab
  import opened Sentences

  // ---------------------------------------------------------------------
  // The regular expression `\b(p1|p2|…)\b`, flags `gi`
  // ---------------------------------------------------------------------

  /** `\w`: ASCII letters, digits and `_`. */
  predicate IsWordChar(c: char) {
    'a' <= c <= 'z' || 'A' <= c <= 'Z' || '0' <= c <= '9' || c == '_'
  }

  /** `\b` at position `i`: a word character on exactly one side. */
  predicate AtBoundary(s: string, i: nat)
    requires i <= |s|
  {
    (0 < i && IsWordChar(s[i - 1])) != (i < |s| && IsWordChar(s[i]))
  }

  /** `\b(alt)\b` matches at `i`, the case of letters aside. */
  predicate MatchesAt(s: string, i: nat, alt: string) {
    && i + |alt| <= |s|
    && AtBoundary(s, i)
    && AtBoundary(s, i + |alt|)
    && LowerStr(s[i..i + |alt|]) == LowerStr(alt)
  }

  /** The end of the first alternative, in order, that passes `at`, as if
      it started at `i`. */
  function FirstEnd(alts: seq<string>, at: string -> bool, i: nat): Option<nat> {
    if alts == [] then None
    else if at(alts[0]) then Some(i + |alts[0]|)
    else FirstEnd(alts[1..], at, i)
  }

  /** The end found belongs to an alternative that passes, and there is one
      exactly when some alternative passes. */
  lemma {:induction false} FirstEndSome(alts: seq<string>, at: string -> bool, i: nat)
    ensures FirstEnd(alts, at, i).Some? <==> exists k :: 0 <= k < |alts| && at(alts[k])
    ensures FirstEnd(alts, at, i).Some? ==>
      exists k :: 0 <= k < |alts| && at(alts[k]) && FirstEnd(alts, at, i).value == i + |alts[k]|
  {
    if alts != [] && !at(alts[0]) {
      FirstEndSome(alts[1..], at, i);
      assert forall k :: 1 <= k < |alts| ==> alts[1..][k - 1] == alts[k];
    }
  }

  /** The alternatives of a prefix are tried before the rest. */
  lemma {:induction false} FirstEndAppend(a: seq<string>, b: seq<string>, at: string -> bool, i: nat)
    ensures FirstEnd(a + b, at, i) == if FirstEnd(a, at, i).Some? then FirstEnd(a, at, i) else FirstEnd(b, at, i)
  {
    if a == [] {
      assert a + b == b;
    } else {
      assert (a + b)[0] == a[0] && (a + b)[1..] == a[1..] + b;
      FirstEndAppend(a[1..], b, at, i);
    }
  }

  /** `\b(alt)\b` at `i`, as a test on the alternative. */
  function AltAt(s: string, i: nat): string -> bool {
    (alt: string) => MatchesAt(s, i, alt)
  }

  /** The end of the match at `i`: the first alternative, in order, that
      matches there, the closing `\b` included. */
  function MatchEnd(s: string, i: nat, alts: seq<string>): (r: Option<nat>)
    ensures r.Some? ==> i <= r.value <= |s|
  {
    FirstEndSome(alts, AltAt(s, i), i);
    FirstEnd(alts, AltAt(s, i), i)
  }

  /** There is a match at `i` exactly when some alternative matches
      there. */
  lemma MatchEndSome(s: string, i: nat, alts: seq<string>)
    ensures MatchEnd(s, i, alts).Some? <==> exists k :: 0 <= k < |alts| && MatchesAt(s, i, alts[k])
  {
    FirstEndSome(alts, AltAt(s, i), i);
  }

  /** The end comes from the first alternative that passes. */
  lemma FirstEndFirst(alts: seq<string>, at: string -> bool, i: nat, k: nat)
    requires k < |alts| && at(alts[k])
    requires forall j :: 0 <= j < k ==> !at(alts[j])
    ensures FirstEnd(alts, at, i) == Some(i + |alts[k]|)
  {
    var a := alts[..k];
    var b := alts[k..];
    assert alts == a + b;
    FirstEndSome(a, at, i);
    FirstEndAppend(a, b, at, i);
    assert b[0] == alts[k];
  }

  /** The match at `i` ends where the first alternative that matches there
      ends: alternatives are tried in order, not by length. */
  lemma MatchEndFirst(s: string, i: nat, alts: seq<string>, k: nat)
    requires k < |alts| && MatchesAt(s, i, alts[k])
    requires forall j :: 0 <= j < k ==> !MatchesAt(s, i, alts[j])
    ensures MatchEnd(s, i, alts) == Some(i + |alts[k]|)
  {
    FirstEndFirst(alts, AltAt(s, i), i, k);
  }

  /** The leftmost match at or after `from`, by its end: the scan of
      `RegExp.prototype.exec`. */
  function SearchFrom(s: string, from: nat, alts: seq<string>): (r: Option<nat>)
    ensures r.Some? ==> from <= r.value <= |s|
    decreases |s| + 1 - from
  {
    if from > |s| then None
    else if MatchEnd(s, from, alts).Some? then MatchEnd(s, from, alts)
    else SearchFrom(s, from + 1, alts)
  }

  /** No match starts in `[a, b)`. */
  predicate NoMatchBetween(s: string, a: nat, b: nat, alts: seq<string>) {
    forall j :: a <= j < b ==> MatchEnd(s, j, alts).None?
  }

  /** The scan finds a match exactly when there is one at or after `from`,
      and it finds the leftmost. */
  lemma {:induction false} SearchFromSpec(s: string, from: nat, alts: seq<string>)
    ensures SearchFrom(s, from, alts).Some? <==> exists i :: from <= i <= |s| && MatchEnd(s, i, alts).Some?
    ensures SearchFrom(s, from, alts).Some? ==>
      exists i :: from <= i <= |s| && SearchFrom(s, from, alts) == MatchEnd(s, i, alts) && NoMatchBetween(s, from, i, alts)
    decreases |s| + 1 - from
  {
    if from <= |s| {
      if MatchEnd(s, from, alts).Some? {
        assert SearchFrom(s, from, alts) == MatchEnd(s, from, alts);
        assert NoMatchBetween(s, from, from, alts);
      } else {
        var next := from + 1;
        SearchFromSpec(s, next, alts);
        assert SearchFrom(s, from, alts) == SearchFrom(s, next, alts);
        if SearchFrom(s, next, alts).Some? {
          var i :| next <= i <= |s| && SearchFrom(s, next, alts) == MatchEnd(s, i, alts) && NoMatchBetween(s, next, i, alts);
          assert NoMatchBetween(s, from, i, alts);
        }
      }
    }
  }

  /** The sentence mentions an alternative somewhere. */
  predicate Mentions(s: string, alts: seq<string>) {
    SearchFrom(s, 0, alts).Some?
  }

  /** A mention is a whole-word, case-blind occurrence of one alternative. */
  lemma MentionsSpec(s: string, alts: seq<string>)
    ensures Mentions(s, alts) <==>
      exists i, k :: 0 <= i <= |s| && 0 <= k < |alts| && MatchesAt(s, i, alts[k])
  {
    SearchFromSpec(s, 0, alts);
    if Mentions(s, alts) {
      var i :| 0 <= i <= |s| && MatchEnd(s, i, alts).Some?;
      MatchEndSome(s, i, alts);
    }
    if exists i, k :: 0 <= i <= |s| && 0 <= k < |alts| && MatchesAt(s, i, alts[k]) {
      var i, k :| 0 <= i <= |s| && 0 <= k < |alts| && MatchesAt(s, i, alts[k]);
      MatchEndSome(s, i, alts);
    }
  }

  /** `regex.test(s)` with the `g` flag: the search starts at `lastIndex`,
      which then moves to the end of the match, or back to 0 when there is
      none (also when `lastIndex` is past the end of `s`). */
  function Test(s: string, lastIndex: nat, alts: seq<string>): (r: (bool, nat))
    ensures !r.0 ==> r.1 == 0
    ensures r.0 ==> lastIndex <= r.1 <= |s|
  {
    match SearchFrom(s, lastIndex, alts)
    case Some(e) => (true, e)
    case None => (false, 0)
  }

  /** A test that succeeds has found a mention; one that starts at 0 finds
      any mention there is. */
  lemma TestSpec(s: string, lastIndex: nat, alts: seq<string>)
    ensures Test(s, lastIndex, alts).0 ==> Mentions(s, alts)
    ensures lastIndex == 0 ==> Test(s, lastIndex, alts).0 == Mentions(s, alts)
  {
    SearchFromSpec(s, lastIndex, alts);
    SearchFromSpec(s, 0, alts);
  }

  // ---------------------------------------------------------------------
  // Records
  // ---------------------------------------------------------------------

  /** A project record, reduced to what the search reads. */
  datatype Project = Project(id: int, title: string)

  /** `SentenceMatch` */
  datatype SentenceMatch = SentenceMatch(text: string, projectId: int, sourceTitle: string, paragraphId: int)

  /** `new Map(allProjects.map(p => [p.id, p.title]))`: a later project with
      the same id replaces an earlier one. */
  function TitleMap(projects: seq<Project>): (r: map<int, string>)
    ensures forall id :: id in r <==> exists k :: 0 <= k < |projects| && projects[k].id == id
  {
    if projects == [] then map[]
    else
      var last := projects[|projects| - 1];
      TitleMap(projects[..|projects| - 1])[last.id := last.title]
  }

  /** A project's title is what the map gives for its id, unless a later
      project has the same id. */
  lemma {:induction false} TitleMapLast(projects: seq<Project>, k: nat)
    requires k < |projects|
    requires forall j :: k < j < |projects| ==> projects[j].id != projects[k].id
    ensures TitleMap(projects)[projects[k].id] == projects[k].title
  {
    if k < |projects| - 1 {
      TitleMapLast(projects[..|projects| - 1], k);
    }
  }

  /** `projectMap.get(para.projectId) || 'Unknown Article'`: a missing or
      empty title falls back. */
  function SourceTitle(titles: map<int, string>, projectId: int): (r: string)
    ensures r != []
    ensures projectId in titles && titles[projectId] != [] ==> r == titles[projectId]
  {
    if projectId in titles && titles[projectId] != [] then titles[projectId] else "Unknown Article"
  }

  /** The record pushed for a sentence of a paragraph. */
  function Hit(para: Paragraph, titles: map<int, string>, sentence: string): SentenceMatch {
    SentenceMatch(sentence, para.projectId, SourceTitle(titles, para.projectId), para.id)
  }

  /** `para.id === excludeParagraphId` */
  predicate Skipped(para: Paragraph, excludeParagraphId: Option<int>) {
    excludeParagraphId == Some(para.id)
  }

  // ---------------------------------------------------------------------
  // The scan, each sentence matched on its own
  // ---------------------------------------------------------------------

  /** `regex.test` on a sentence, searching it from its start. */
  function MentionFn(alts: seq<string>): string -> bool {
    (s: string) => Mentions(s, alts)
  }

  /** The outputs of the first `n` elements of `s`, in order: a loop that
      pushes what `f` gives for each element. */
  function FlatMap<A, B>(s: seq<A>, n: nat, f: A -> seq<B>): (r: seq<B>)
    requires n <= |s|
  {
    if n == 0 then [] else FlatMap(s, n - 1, f) + f(s[n - 1])
  }

  lemma {:induction false} FlatMapMember<A, B>(s: seq<A>, n: nat, f: A -> seq<B>)
    requires n <= |s|
    ensures forall y :: y in FlatMap(s, n, f) <==> exists k :: 0 <= k < n && y in f(s[k])
  {
    if n > 0 {
      FlatMapMember(s, n - 1, f);
    }
  }

  /** `if (regex.test(sentence)) results.push({...})` for one sentence. */
  function HitIf(para: Paragraph, titles: map<int, string>, test: string -> bool): string -> seq<SentenceMatch> {
    (sentence: string) => if test(sentence) then [Hit(para, titles, sentence)] else []
  }

  /** The hits of one paragraph, none for the excluded one. */
  function ParagraphHits(para: Paragraph, excludeParagraphId: Option<int>, titles: map<int, string>, test: string -> bool): seq<SentenceMatch> {
    if Skipped(para, excludeParagraphId) then []
    else
      var sentences := SplitIntoSentences(para.content);
      FlatMap(sentences, |sentences|, HitIf(para, titles, test))
  }

  function ParagraphHitsFn(excludeParagraphId: Option<int>, titles: map<int, string>, test: string -> bool): Paragraph -> seq<SentenceMatch> {
    (para: Paragraph) => ParagraphHits(para, excludeParagraphId, titles, test)
  }

  /** A paragraph's hits are its sentences that pass the test, unless it is
      the excluded one. */
  lemma ParagraphHitsSpec(para: Paragraph, excludeParagraphId: Option<int>, titles: map<int, string>, test: string -> bool)
    ensures forall x :: x in ParagraphHits(para, excludeParagraphId, titles, test) <==>
      !Skipped(para, excludeParagraphId)
      && exists s :: s in SplitIntoSentences(para.content) && test(s) && x == Hit(para, titles, s)
  {
    var ss := SplitIntoSentences(para.content);
    var f := HitIf(para, titles, test);
    FlatMapMember(ss, |ss|, f);
    forall x | !Skipped(para, excludeParagraphId) && exists s :: s in ss && test(s) && x == Hit(para, titles, s)
      ensures x in ParagraphHits(para, excludeParagraphId, titles, test)
    {
      var s :| s in ss && test(s) && x == Hit(para, titles, s);
      var j :| 0 <= j < |ss| && ss[j] == s;
      assert x in f(ss[j]);
    }
  }

  /** The hits of the first `m` paragraphs, in order. */
  function Collected(paragraphs: seq<Paragraph>, m: nat, excludeParagraphId: Option<int>, titles: map<int, string>, test: string -> bool): seq<SentenceMatch>
    requires m <= |paragraphs|
  {
    FlatMap(paragraphs, m, ParagraphHitsFn(excludeParagraphId, titles, test))
  }

  // ---------------------------------------------------------------------
  // The de-duplication
  // ---------------------------------------------------------------------

  /** `item.text.toLowerCase()` */
  function TextKey(m: SentenceMatch): string {
    LowerStr(m.text)
  }

  /** `s.filter(item => seen.has(key(item)) ? false : seen.add(key(item)))`:
      an item is kept when no item before it has its key. */
  function FirstByKey<T>(s: seq<T>, key: T -> string): (r: seq<T>)
    ensures |r| <= |s|
  {
    if s == [] then []
    else
      var prefix := s[..|s| - 1];
      var x := s[|s| - 1];
      if key(x) in Image(prefix, key) then FirstByKey(prefix, key)
      else FirstByKey(prefix, key) + [x]
  }

  /** One more item is kept exactly when its key is new. */
  lemma FirstByKeySnoc<T>(s: seq<T>, x: T, key: T -> string)
    ensures FirstByKey(s + [x], key) ==
      if key(x) in Image(s, key) then FirstByKey(s, key) else FirstByKey(s, key) + [x]
  {
    assert (s + [x])[..|s|] == s;
  }

  /** The kept items have exactly the keys of the input. */
  lemma {:induction false} FirstByKeyImage<T>(s: seq<T>, key: T -> string)
    ensures Image(FirstByKey(s, key), key) == Image(s, key)
  {
    if s != [] {
      var prefix := s[..|s| - 1];
      var x := s[|s| - 1];
      assert s == prefix + [x];
      FirstByKeyImage(prefix, key);
      FirstByKeySnoc(prefix, x, key);
      ImageSnoc(prefix, x, key);
      if key(x) !in Image(prefix, key) {
        ImageSnoc(FirstByKey(prefix, key), x, key);
      }
    }
  }

  /** No two kept items share a key. */
  lemma {:induction false} FirstByKeyUnique<T>(s: seq<T>, key: T -> string)
    ensures forall i, j :: 0 <= i < j < |FirstByKey(s, key)| ==> key(FirstByKey(s, key)[i]) != key(FirstByKey(s, key)[j])
  {
    if s != [] {
      var prefix := s[..|s| - 1];
      var x := s[|s| - 1];
      assert s == prefix + [x];
      FirstByKeyUnique(prefix, key);
      FirstByKeySnoc(prefix, x, key);
      if key(x) !in Image(prefix, key) {
        var r0 := FirstByKey(prefix, key);
        FirstByKeyImage(prefix, key);
        var r := r0 + [x];
        forall i, j | 0 <= i < j < |r| ensures key(r[i]) != key(r[j]) {
          if j == |r0| {
            assert key(r0[i]) in Image(r0, key);
          } else {
            assert r[i] == r0[i] && r[j] == r0[j];
          }
        }
      }
    }
  }

  /** The kept items are items of the input, each the first of its key. */
  lemma {:induction false} FirstByKeyFirst<T>(s: seq<T>, key: T -> string)
    ensures forall x :: x in FirstByKey(s, key) ==>
      exists k :: 0 <= k < |s| && s[k] == x && key(x) !in Image(s[..k], key)
  {
    if s != [] {
      var prefix := s[..|s| - 1];
      var y := s[|s| - 1];
      FirstByKeyFirst(prefix, key);
      forall x | x in FirstByKey(s, key)
        ensures exists k :: 0 <= k < |s| && s[k] == x && key(x) !in Image(s[..k], key)
      {
        if x in FirstByKey(prefix, key) {
          var k :| 0 <= k < |prefix| && prefix[k] == x && key(x) !in Image(prefix[..k], key);
          assert prefix[..k] == s[..k] && s[k] == x;
        } else {
          assert x == y && key(y) !in Image(prefix, key);
          assert s[|s| - 1] == x;
        }
      }
    }
  }

  /** The positions of the items that are kept, in input order. */
  function FirstIndexes<T>(s: seq<T>, key: T -> string): (ks: seq<nat>)
    ensures |ks| == |FirstByKey(s, key)|
    ensures forall i :: 0 <= i < |ks| ==> ks[i] < |s|
  {
    if s == [] then []
    else
      var prefix := s[..|s| - 1];
      if key(s[|s| - 1]) in Image(prefix, key) then FirstIndexes(prefix, key)
      else FirstIndexes(prefix, key) + [|s| - 1]
  }

  /** Position `k` holds the first item with its key. */
  predicate IsFirst<T>(s: seq<T>, key: T -> string, k: nat) {
    k < |s| && key(s[k]) !in Image(s[..k], key)
  }

  /** Each kept item is the input's item at the matching kept position. */
  lemma {:induction false} FirstIndexesAt<T>(s: seq<T>, key: T -> string)
    ensures forall i :: 0 <= i < |FirstIndexes(s, key)| ==> FirstByKey(s, key)[i] == s[FirstIndexes(s, key)[i]]
  {
    if s != [] {
      var prefix := s[..|s| - 1];
      FirstIndexesAt(prefix, key);
      var ks0, r0 := FirstIndexes(prefix, key), FirstByKey(prefix, key);
      var ks, r := FirstIndexes(s, key), FirstByKey(s, key);
      forall i | 0 <= i < |ks| ensures r[i] == s[ks[i]] {
        if i < |ks0| {
          assert ks[i] == ks0[i] && r[i] == r0[i];
          assert r0[i] == prefix[ks0[i]];
        }
      }
    }
  }

  /** The kept positions strictly increase. */
  lemma {:induction false} FirstIndexesIncreasing<T>(s: seq<T>, key: T -> string)
    ensures forall i, j :: 0 <= i < j < |FirstIndexes(s, key)| ==> FirstIndexes(s, key)[i] < FirstIndexes(s, key)[j]
  {
    if s != [] {
      var prefix := s[..|s| - 1];
      FirstIndexesIncreasing(prefix, key);
      var ks0, ks := FirstIndexes(prefix, key), FirstIndexes(s, key);
      forall i, j | 0 <= i < j < |ks| ensures ks[i] < ks[j] {
        assert ks[i] == ks0[i];
      }
    }
  }

  /** The kept positions are exactly those whose key does not occur earlier. */
  lemma {:induction false} FirstIndexesFirst<T>(s: seq<T>, key: T -> string)
    ensures forall k: nat :: k in FirstIndexes(s, key) <==> IsFirst(s, key, k)
  {
    if s != [] {
      var prefix := s[..|s| - 1];
      FirstIndexesFirst(prefix, key);
      var ks0, ks := FirstIndexes(prefix, key), FirstIndexes(s, key);
      forall k: nat ensures k in ks <==> IsFirst(s, key, k) {
        if k < |prefix| {
          assert prefix[..k] == s[..k] && prefix[k] == s[k];
          assert IsFirst(s, key, k) == IsFirst(prefix, key, k);
        }
        assert k in ks <==> k in ks0 || (k == |prefix| && IsFirst(s, key, k));
      }
    }
  }

  /** The kept list is the input read at strictly increasing positions, and
      those positions are exactly the first occurrences of each key: the
      input's order is kept. */
  lemma FirstByKeyOrder<T>(s: seq<T>, key: T -> string)
    ensures var ks := FirstIndexes(s, key); var r := FirstByKey(s, key);
      (forall i :: 0 <= i < |ks| ==> r[i] == s[ks[i]])
      && (forall i, j :: 0 <= i < j < |ks| ==> ks[i] < ks[j])
      && (forall k: nat :: k in ks <==> IsFirst(s, key, k))
  {
    FirstIndexesAt(s, key);
    FirstIndexesIncreasing(s, key);
    FirstIndexesFirst(s, key);
  }

  /** An input whose keys are already distinct is kept whole. */
  lemma {:induction false} FirstByKeyDistinct<T>(s: seq<T>, key: T -> string)
    requires forall i, j :: 0 <= i < j < |s| ==> key(s[i]) != key(s[j])
    ensures FirstByKey(s, key) == s
  {
    if s != [] {
      var prefix := s[..|s| - 1];
      var x := s[|s| - 1];
      assert s == prefix + [x];
      FirstByKeyDistinct(prefix, key);
      FirstByKeySnoc(prefix, x, key);
    }
  }

  /** De-duplicating twice is de-duplicating once. */
  lemma FirstByKeyIdempotent<T>(s: seq<T>, key: T -> string)
    ensures FirstByKey(FirstByKey(s, key), key) == FirstByKey(s, key)
  {
    FirstByKeyUnique(s, key);
    FirstByKeyDistinct(FirstByKey(s, key), key);
  }

  /** The keys after one more element. */
  lemma ImageSnoc<T>(s: seq<T>, x: T, key: T -> string)
    ensures Image(s + [x], key) == Image(s, key) + {key(x)}
  {
    var t := s + [x];
    forall k | k in Image(t, key) ensures k in Image(s, key) + {key(x)} {
      var i :| 0 <= i < |t| && key(t[i]) == k;
      if i < |s| {
        assert t[i] == s[i];
      }
    }
    forall k | k in Image(s, key) ensures k in Image(t, key) {
      var i :| 0 <= i < |s| && key(s[i]) == k;
      assert t[i] == s[i];
    }
    assert t[|s|] == x;
  }

  /** The loop of `Dedupe` after one more item. */
  lemma DedupeStep<T>(results: seq<T>, i: nat, key: T -> string)
    requires i < |results|
    ensures Image(results[..i + 1], key) == Image(results[..i], key) + {key(results[i])}
    ensures FirstByKey(results[..i + 1], key) ==
      if key(results[i]) in Image(results[..i], key) then FirstByKey(results[..i], key)
      else FirstByKey(results[..i], key) + [results[i]]
  {
    assert results[..i + 1] == results[..i] + [results[i]];
    ImageSnoc(results[..i], results[i], key);
    FirstByKeySnoc(results[..i], results[i], key);
  }

  /** The de-duplication loop with its `seen` set of keys. */
  method Dedupe<T>(results: seq<T>, key: T -> string) returns (kept: seq<T>)
    ensures kept == FirstByKey(results, key)
  {
    var seen: set<string> := {};
    kept := [];
    for i := 0 to |results|
      invariant seen == Image(results[..i], key)
      invariant kept == FirstByKey(results[..i], key)
    {
      var item := results[i];
      var k := key(item);
      DedupeStep(results, i, key);
      if k !in seen {
        seen := seen + {k};
        kept := kept + [item];
      }
    }
    assert results[..|results|] == results;
  }

  // ---------------------------------------------------------------------
  // searchContextualSentences
  // ---------------------------------------------------------------------

  /** What the search returns: the hits of all paragraphs for the entry's
      word and variants, one per lower-cased text. */
  function SearchResults(word: string, matchPattern: Option<string>, excludeParagraphId: Option<int>, allProjects: seq<Project>, allParagraphs: seq<Paragraph>): seq<SentenceMatch> {
    FirstByKey(Collected(allParagraphs, |allParagraphs|, excludeParagraphId, TitleMap(allProjects), SearchTest(word, matchPattern)), TextKey)
  }

  /** The search keeps its hits in the order they were collected: each kept
      hit is the collected hit at a strictly later position than the one
      before it, and the kept positions are those whose lower-cased text was
      not collected earlier. */
  lemma SearchResultsOrder(word: string, matchPattern: Option<string>, excludeParagraphId: Option<int>, allProjects: seq<Project>, allParagraphs: seq<Paragraph>)
    ensures var c := Collected(allParagraphs, |allParagraphs|, excludeParagraphId, TitleMap(allProjects), SearchTest(word, matchPattern));
      var r := SearchResults(word, matchPattern, excludeParagraphId, allProjects, allParagraphs);
      var ks := FirstIndexes(c, TextKey);
      |ks| == |r|
      && (forall i :: 0 <= i < |ks| ==> ks[i] < |c| && r[i] == c[ks[i]])
      && (forall i, j :: 0 <= i < j < |ks| ==> ks[i] < ks[j])
      && (forall k: nat :: k in ks <==> IsFirst(c, TextKey, k))
  {
    FirstByKeyOrder(Collected(allParagraphs, |allParagraphs|, excludeParagraphId, TitleMap(allProjects), SearchTest(word, matchPattern)), TextKey);
  }

  /** `searchContextualSentences`, with the projects and paragraphs tables
      passed in and each sentence matched from its start. */
  method SearchContextualSentences(word: string, matchPattern: Option<string>, excludeParagraphId: Option<int>, allProjects: seq<Project>, allParagraphs: seq<Paragraph>)
    returns (r: seq<SentenceMatch>)
    ensures r == SearchResults(word, matchPattern, excludeParagraphId, allProjects, allParagraphs)
  {
    var projectMap := TitleMap(allProjects);
    var test := SearchTest(word, matchPattern);
    var results: seq<SentenceMatch> := [];
    for m := 0 to |allParagraphs|
      invariant results == Collected(allParagraphs, m, excludeParagraphId, projectMap, test)
    {
      results := VisitParagraph(results, allParagraphs[m], excludeParagraphId, projectMap, test);
      CollectedStep(allParagraphs, m, excludeParagraphId, projectMap, test);
    }
    r := Dedupe(results, TextKey);
  }

  /** The body of the loop over paragraphs: the excluded paragraph is
      skipped; otherwise every sentence that passes the test is pushed with
      the paragraph's project, title and id. */
  method VisitParagraph(results0: seq<SentenceMatch>, para: Paragraph, excludeParagraphId: Option<int>, projectMap: map<int, string>, test: string -> bool)
    returns (results: seq<SentenceMatch>)
    ensures results == results0 + ParagraphHits(para, excludeParagraphId, projectMap, test)
  {
    results := results0;
    if excludeParagraphId == Some(para.id) {
      return;
    }
    var sentences := SplitIntoSentences(para.content);
    results := PushHits(results, sentences, para, projectMap, test);
  }

  /** `for (const sentence of sentences) if (regex.test(sentence))
      results.push({...})` */
  method PushHits(results0: seq<SentenceMatch>, sentences: seq<string>, para: Paragraph, projectMap: map<int, string>, test: string -> bool)
    returns (results: seq<SentenceMatch>)
    ensures results == results0 + FlatMap(sentences, |sentences|, HitIf(para, projectMap, test))
  {
    results := results0;
    for j := 0 to |sentences|
      invariant results == results0 + FlatMap(sentences, j, HitIf(para, projectMap, test))
    {
      if test(sentences[j]) {
        results := results + [Hit(para, projectMap, sentences[j])];
      }
    }
  }

  /** One more paragraph adds its own hits. */
  lemma CollectedStep(paragraphs: seq<Paragraph>, m: nat, excludeParagraphId: Option<int>, titles: map<int, string>, test: string -> bool)
    requires m < |paragraphs|
    ensures Collected(paragraphs, m + 1, excludeParagraphId, titles, test)
      == Collected(paragraphs, m, excludeParagraphId, titles, test) + ParagraphHits(paragraphs[m], excludeParagraphId, titles, test)
  {
  }

  /** A sentence the search can report: from a paragraph other than the
      excluded one, passing the test. */
  predicate Source(paragraphs: seq<Paragraph>, excludeParagraphId: Option<int>, test: string -> bool, k: int, s: string) {
    && 0 <= k < |paragraphs|
    && !Skipped(paragraphs[k], excludeParagraphId)
    && s in SplitIntoSentences(paragraphs[k].content)
    && test(s)
  }

  /** Every hit is a sentence that passes the test, with its paragraph's
      project, id and title, and every such sentence is a hit. */
  lemma CollectedSpec(paragraphs: seq<Paragraph>, excludeParagraphId: Option<int>, titles: map<int, string>, test: string -> bool)
    ensures forall x :: x in Collected(paragraphs, |paragraphs|, excludeParagraphId, titles, test) <==>
      exists k, s :: Source(paragraphs, excludeParagraphId, test, k, s) && x == Hit(paragraphs[k], titles, s)
  {
    CollectedSound(paragraphs, excludeParagraphId, titles, test);
    CollectedComplete(paragraphs, excludeParagraphId, titles, test);
  }

  lemma CollectedSound(paragraphs: seq<Paragraph>, excludeParagraphId: Option<int>, titles: map<int, string>, test: string -> bool)
    ensures forall x :: x in Collected(paragraphs, |paragraphs|, excludeParagraphId, titles, test) ==>
      exists k, s :: Source(paragraphs, excludeParagraphId, test, k, s) && x == Hit(paragraphs[k], titles, s)
  {
    var f := ParagraphHitsFn(excludeParagraphId, titles, test);
    FlatMapMember(paragraphs, |paragraphs|, f);
    forall x | x in Collected(paragraphs, |paragraphs|, excludeParagraphId, titles, test)
      ensures exists k, s :: Source(paragraphs, excludeParagraphId, test, k, s) && x == Hit(paragraphs[k], titles, s)
    {
      var k :| 0 <= k < |paragraphs| && x in f(paragraphs[k]);
      ParagraphHitsSpec(paragraphs[k], excludeParagraphId, titles, test);
      var s :| s in SplitIntoSentences(paragraphs[k].content) && test(s) && x == Hit(paragraphs[k], titles, s);
      assert Source(paragraphs, excludeParagraphId, test, k, s);
    }
  }

  lemma CollectedComplete(paragraphs: seq<Paragraph>, excludeParagraphId: Option<int>, titles: map<int, string>, test: string -> bool)
    ensures forall k, s :: Source(paragraphs, excludeParagraphId, test, k, s) ==>
      Hit(paragraphs[k], titles, s) in Collected(paragraphs, |paragraphs|, excludeParagraphId, titles, test)
  {
    var f := ParagraphHitsFn(excludeParagraphId, titles, test);
    FlatMapMember(paragraphs, |paragraphs|, f);
    forall k, s | Source(paragraphs, excludeParagraphId, test, k, s)
      ensures Hit(paragraphs[k], titles, s) in Collected(paragraphs, |paragraphs|, excludeParagraphId, titles, test)
    {
      ParagraphHitsSpec(paragraphs[k], excludeParagraphId, titles, test);
      assert Hit(paragraphs[k], titles, s) in f(paragraphs[k]);
    }
  }

  /** After de-duplication every result is still a hit. */
  lemma DedupedSound(paragraphs: seq<Paragraph>, excludeParagraphId: Option<int>, titles: map<int, string>, test: string -> bool)
    ensures forall x :: x in FirstByKey(Collected(paragraphs, |paragraphs|, excludeParagraphId, titles, test), TextKey) ==>
      exists k, s :: Source(paragraphs, excludeParagraphId, test, k, s) && x == Hit(paragraphs[k], titles, s)
  {
    var all := Collected(paragraphs, |paragraphs|, excludeParagraphId, titles, test);
    CollectedSpec(paragraphs, excludeParagraphId, titles, test);
    FirstByKeyFirst(all, TextKey);
    forall x | x in FirstByKey(all, TextKey)
      ensures exists k, s :: Source(paragraphs, excludeParagraphId, test, k, s) && x == Hit(paragraphs[k], titles, s)
    {
      var i :| 0 <= i < |all| && all[i] == x && TextKey(x) !in Image(all[..i], TextKey);
      assert x in all;
    }
  }

  /** After de-duplication every sentence that passes the test is
      represented by a result with its lower-cased text. */
  lemma DedupedComplete(paragraphs: seq<Paragraph>, excludeParagraphId: Option<int>, titles: map<int, string>, test: string -> bool)
    ensures forall k, s :: Source(paragraphs, excludeParagraphId, test, k, s) ==>
      LowerStr(s) in Image(FirstByKey(Collected(paragraphs, |paragraphs|, excludeParagraphId, titles, test), TextKey), TextKey)
  {
    var all := Collected(paragraphs, |paragraphs|, excludeParagraphId, titles, test);
    CollectedSpec(paragraphs, excludeParagraphId, titles, test);
    FirstByKeyImage(all, TextKey);
    forall k, s | Source(paragraphs, excludeParagraphId, test, k, s)
      ensures LowerStr(s) in Image(all, TextKey)
    {
      var x := Hit(paragraphs[k], titles, s);
      assert x in all;
      var i :| 0 <= i < |all| && all[i] == x;
      assert TextKey(all[i]) == LowerStr(s);
    }
  }

  /** The test the search applies to each sentence. */
  function SearchTest(word: string, matchPattern: Option<string>): string -> bool {
    MentionFn(Alternatives(word, matchPattern))
  }

  /** Every result is a sentence of a paragraph other than the excluded one
      that mentions the word or a variant, with that paragraph's project, id
      and title. */
  lemma SearchResultsSound(word: string, matchPattern: Option<string>, excludeParagraphId: Option<int>, allProjects: seq<Project>, allParagraphs: seq<Paragraph>)
    ensures forall x :: x in SearchResults(word, matchPattern, excludeParagraphId, allProjects, allParagraphs) ==>
      exists k, s :: (Source(allParagraphs, excludeParagraphId, SearchTest(word, matchPattern), k, s)
        && x == Hit(allParagraphs[k], TitleMap(allProjects), s))
  {
    DedupedSound(allParagraphs, excludeParagraphId, TitleMap(allProjects), SearchTest(word, matchPattern));
  }

  /** No two results have the same lower-cased text. */
  lemma SearchResultsUnique(word: string, matchPattern: Option<string>, excludeParagraphId: Option<int>, allProjects: seq<Project>, allParagraphs: seq<Paragraph>)
    ensures var r := SearchResults(word, matchPattern, excludeParagraphId, allProjects, allParagraphs);
      forall i, j :: 0 <= i < j < |r| ==> TextKey(r[i]) != TextKey(r[j])
  {
    FirstByKeyUnique(Collected(allParagraphs, |allParagraphs|, excludeParagraphId, TitleMap(allProjects), SearchTest(word, matchPattern)), TextKey);
  }

  /** Every sentence of a paragraph other than the excluded one that
      mentions the word or a variant is represented by a result with its
      lower-cased text. */
  lemma SearchResultsComplete(word: string, matchPattern: Option<string>, excludeParagraphId: Option<int>, allProjects: seq<Project>, allParagraphs: seq<Paragraph>)
    ensures forall k, s :: Source(allParagraphs, excludeParagraphId, SearchTest(word, matchPattern), k, s) ==>
      LowerStr(s) in Image(SearchResults(word, matchPattern, excludeParagraphId, allProjects, allParagraphs), TextKey)
  {
    DedupedComplete(allParagraphs, excludeParagraphId, TitleMap(allProjects), SearchTest(word, matchPattern));
  }

  /** The excluded paragraph contributes nothing, and every title is
      non-empty. */
  lemma SearchSkipsExcluded(word: string, matchPattern: Option<string>, excludeParagraphId: Option<int>, allProjects: seq<Project>, allParagraphs: seq<Paragraph>)
    ensures forall x :: x in SearchResults(word, matchPattern, excludeParagraphId, allProjects, allParagraphs) ==>
      excludeParagraphId != Some(x.paragraphId) && x.sourceTitle != []
  {
    SearchResultsSound(word, matchPattern, excludeParagraphId, allProjects, allParagraphs);
  }

  // ---------------------------------------------------------------------
  // The scan as written: one expression shared by every `test`
  // ---------------------------------------------------------------------

  /** The results so far and the shared expression's `lastIndex`. */
  datatype Scan = Scan(results: seq<SentenceMatch>, lastIndex: nat)

  /** `regex.test(s)` on the shared expression of the alternatives, as a
      function of the sentence and the `lastIndex` it starts from. */
  function TestFn(alts: seq<string>): (string, nat) -> (bool, nat) {
    (s: string, lastIndex: nat) => Test(s, lastIndex, alts)
  }

  /** The state after testing the first `n` sentences of a paragraph with
      `regexTest`, each test starting at the `lastIndex` the previous one
      left. */
  function ScanSentences(st: Scan, para: Paragraph, titles: map<int, string>, sentences: seq<string>, regexTest: (string, nat) -> (bool, nat), n: nat): Scan
    requires n <= |sentences|
  {
    if n == 0 then st
    else
      var prev := ScanSentences(st, para, titles, sentences, regexTest, n - 1);
      var t := regexTest(sentences[n - 1], prev.lastIndex);
      Scan(if t.0 then prev.results + [Hit(para, titles, sentences[n - 1])] else prev.results, t.1)
  }

  /** The state after the first `m` paragraphs. */
  function ScanAsWritten(paragraphs: seq<Paragraph>, m: nat, excludeParagraphId: Option<int>, titles: map<int, string>, regexTest: (string, nat) -> (bool, nat)): Scan
    requires m <= |paragraphs|
  {
    if m == 0 then Scan([], 0)
    else
      var prev := ScanAsWritten(paragraphs, m - 1, excludeParagraphId, titles, regexTest);
      var p := paragraphs[m - 1];
      if Skipped(p, excludeParagraphId) then prev
      else
        var ss := SplitIntoSentences(p.content);
        ScanSentences(prev, p, titles, ss, regexTest, |ss|)
  }

  /** `searchContextualSentences` as written, `regex.test` keeping its
      `lastIndex` from one sentence to the next. */
  function SearchAsWritten(word: string, matchPattern: Option<string>, excludeParagraphId: Option<int>, allProjects: seq<Project>, allParagraphs: seq<Paragraph>): seq<SentenceMatch> {
    var titles := TitleMap(allProjects);
    var regexTest := TestFn(Alternatives(word, matchPattern));
    FirstByKey(ScanAsWritten(allParagraphs, |allParagraphs|, excludeParagraphId, titles, regexTest).results, TextKey)
  }

  /** A stateful test that only succeeds where `test` does only loses hits:
      whatever the scan as written pushes, the sentence-by-sentence scan
      collects too. */
  lemma {:induction false} ScanSentencesWithin(st: Scan, para: Paragraph, titles: map<int, string>, sentences: seq<string>, regexTest: (string, nat) -> (bool, nat), test: string -> bool, n: nat)
    requires n <= |sentences|
    requires forall s, i :: regexTest(s, i).0 ==> test(s)
    ensures forall x :: x in ScanSentences(st, para, titles, sentences, regexTest, n).results ==>
      x in st.results || x in FlatMap(sentences, n, HitIf(para, titles, test))
  {
    if n > 0 {
      ScanSentencesWithin(st, para, titles, sentences, regexTest, test, n - 1);
    }
  }

  lemma {:induction false} ScanAsWrittenWithin(paragraphs: seq<Paragraph>, m: nat, excludeParagraphId: Option<int>, titles: map<int, string>, regexTest: (string, nat) -> (bool, nat), test: string -> bool)
    requires m <= |paragraphs|
    requires forall s, i :: regexTest(s, i).0 ==> test(s)
    ensures forall x :: x in ScanAsWritten(paragraphs, m, excludeParagraphId, titles, regexTest).results ==>
      x in Collected(paragraphs, m, excludeParagraphId, titles, test)
  {
    if m > 0 {
      ScanAsWrittenWithin(paragraphs, m - 1, excludeParagraphId, titles, regexTest, test);
      var p := paragraphs[m - 1];
      CollectedStep(paragraphs, m - 1, excludeParagraphId, titles, test);
      if !Skipped(p, excludeParagraphId) {
        var ss := SplitIntoSentences(p.content);
        var prev := ScanAsWritten(paragraphs, m - 1, excludeParagraphId, titles, regexTest);
        ScanSentencesWithin(prev, p, titles, ss, regexTest, test, |ss|);
      }
    }
  }

  /** Every result of the search as written is a result the corrected search
      can give: a mentioning sentence of a paragraph other than the excluded
      one. */
  lemma AsWrittenSound(word: string, matchPattern: Option<string>, excludeParagraphId: Option<int>, allProjects: seq<Project>, allParagraphs: seq<Paragraph>)
    ensures forall x :: x in SearchAsWritten(word, matchPattern, excludeParagraphId, allProjects, allParagraphs) ==>
      x in Collected(allParagraphs, |allParagraphs|, excludeParagraphId, TitleMap(allProjects), SearchTest(word, matchPattern))
  {
    var titles := TitleMap(allProjects);
    var alts := Alternatives(word, matchPattern);
    var regexTest := TestFn(alts);
    var test := SearchTest(word, matchPattern);
    forall s, i ensures regexTest(s, i).0 ==> test(s) {
      TestSpec(s, i, alts);
    }
    var scanned := ScanAsWritten(allParagraphs, |allParagraphs|, excludeParagraphId, titles, regexTest).results;
    ScanAsWrittenWithin(allParagraphs, |allParagraphs|, excludeParagraphId, titles, regexTest, test);
    FirstByKeyFirst(scanned, TextKey);
  }

  // ---------------------------------------------------------------------
  // A text on which the two scans differ
  // ---------------------------------------------------------------------

  const First: string := "The cat sat."
  const Second: string := "A cat ran."

  /** A paragraph of two sentences, both mentioning "cat". */
  function SamplePara(): Paragraph {
    Paragraph(1, 1, First + " " + Second, [])
  }

  /** The sample paragraph has the two sentences. */
  lemma SampleSentences()
    ensures SplitIntoSentences(SamplePara().content) == [First, Second]
  {
    assert First[..11] == "The cat sat";
    assert Second[..9] == "A cat ran";
    assert OneSentence(First) && OneSentence(Second);
    TwoSentences(First, " ", Second);
  }

  /** Two texts of one length differ after lower-casing when they differ
      there at one position. */
  lemma LowerDiffers(x: string, y: string, k: nat)
    requires |x| == |y| && k < |x| && Lower(x[k]) != Lower(y[k])
    ensures LowerStr(x) != LowerStr(y)
  {
    LowerStrAt(x);
    LowerStrAt(y);
  }

  /** The word "cat" with no variants is searched as itself. */
  lemma SampleAlternatives()
    ensures Alternatives("cat", None) == ["cat"]
  {
    AlternativesSpec("cat", None);
    assert Candidates("cat", None) == ["cat"];
  }

  /** In "The cat sat." the first match of "cat" ends at 7. */
  lemma SampleFirstTest()
    ensures Test("The cat sat.", 0, ["cat"]) == (true, 7)
    ensures Mentions("The cat sat.", ["cat"])
  {
    var s1 := "The cat sat.";
    var alts := ["cat"];
    assert s1[0..3] == "The" && s1[3..6] == " ca" && s1[4..7] == "cat";
    LowerDiffers("The", "cat", 0);
    assert !MatchesAt(s1, 0, "cat");
    assert s1[0] == 'T' && s1[1] == 'h' && s1[2] == 'e' && s1[5] == 'a' && s1[6] == 't';
    assert !AtBoundary(s1, 1) && !AtBoundary(s1, 2) && !AtBoundary(s1, 6);
    assert MatchesAt(s1, 4, "cat");
    assert SearchFrom(s1, 4, alts) == Some(7);
    assert SearchFrom(s1, 3, alts) == Some(7);
    assert SearchFrom(s1, 2, alts) == Some(7);
    assert SearchFrom(s1, 1, alts) == Some(7);
  }

  /** "A cat ran." mentions "cat" at 2, but from 7 there is no match. */
  lemma SampleSecondTest()
    ensures Test("A cat ran.", 7, ["cat"]) == (false, 0)
    ensures Mentions("A cat ran.", ["cat"])
  {
    var s2 := "A cat ran.";
    var alts := ["cat"];
    assert s2[6] == 'r' && s2[7] == 'a';
    assert !AtBoundary(s2, 7);
    assert SearchFrom(s2, 8, alts) == None;
    assert SearchFrom(s2, 7, alts) == None;
    assert s2[2..5] == "cat" && s2[1] == ' ' && s2[4] == 't' && s2[5] == ' ';
    assert MatchesAt(s2, 2, "cat");
    assert SearchFrom(s2, 2, alts) == Some(5);
    assert s2[0..3] == "A c" && s2[1..4] == " ca";
    LowerDiffers("A c", "cat", 1);
    LowerDiffers(" ca", "cat", 0);
    assert SearchFrom(s2, 1, alts) == Some(5);
  }

  /** The scan as written over two sentences, when the first one's match
      ends past every match of the second: only the first is reported. */
  lemma ScanTwo(para: Paragraph, titles: map<int, string>, s1: string, s2: string, regexTest: (string, nat) -> (bool, nat), e: nat)
    requires regexTest(s1, 0) == (true, e) && !regexTest(s2, e).0 && regexTest(s2, e).1 == 0
    ensures ScanSentences(Scan([], 0), para, titles, [s1, s2], regexTest, 2) == Scan([Hit(para, titles, s1)], 0)
  {
    var ss := [s1, s2];
    var st0 := Scan([], 0);
    assert ScanSentences(st0, para, titles, ss, regexTest, 0) == st0;
    assert ss[0] == s1 && ss[1] == s2;
    assert st0.results + [Hit(para, titles, s1)] == [Hit(para, titles, s1)];
    var st1 := ScanSentences(st0, para, titles, ss, regexTest, 1);
    assert st1 == Scan([Hit(para, titles, s1)], e);
  }

  /** The corrected scan over a paragraph of two sentences that both pass
      the test: both are hits. */
  lemma CollectedTwo(para: Paragraph, excludeParagraphId: Option<int>, titles: map<int, string>, test: string -> bool, s1: string, s2: string)
    requires SplitIntoSentences(para.content) == [s1, s2] && !Skipped(para, excludeParagraphId)
    requires test(s1) && test(s2)
    ensures Collected([para], 1, excludeParagraphId, titles, test) == [Hit(para, titles, s1), Hit(para, titles, s2)]
  {
    var ss := [s1, s2];
    var f := HitIf(para, titles, test);
    assert ss[0] == s1 && ss[1] == s2;
    assert FlatMap(ss, 0, f) == [];
    assert FlatMap(ss, 1, f) == [Hit(para, titles, s1)];
    assert FlatMap(ss, 2, f) == [Hit(para, titles, s1), Hit(para, titles, s2)];
    assert ParagraphHits(para, excludeParagraphId, titles, test) == FlatMap(ss, 2, f);
    var g := ParagraphHitsFn(excludeParagraphId, titles, test);
    assert FlatMap([para], 0, g) == [];
    assert [para][0] == para;
  }

  /** When the first of two sentences has a match that ends past the only
      matches of the second, the search as written reports the first
      sentence alone. */
  lemma AsWrittenMisses(word: string, matchPattern: Option<string>, para: Paragraph, s1: string, s2: string, e: nat)
    requires SplitIntoSentences(para.content) == [s1, s2]
    requires Test(s1, 0, Alternatives(word, matchPattern)) == (true, e)
    requires !Test(s2, e, Alternatives(word, matchPattern)).0
    ensures SearchAsWritten(word, matchPattern, None, [], [para]) == [Hit(para, map[], s1)]
  {
    var regexTest := TestFn(Alternatives(word, matchPattern));
    assert TitleMap([]) == map[];
    ScanTwo(para, map[], s1, s2, regexTest, e);
    var one := [Hit(para, map[], s1)];
    assert ScanAsWritten([para], 0, None, map[], regexTest) == Scan([], 0);
    assert [para][0] == para;
    assert ScanAsWritten([para], 1, None, map[], regexTest).results == one;
    assert FirstByKey(one, TextKey) == one by {
      assert one[..0] == [];
    }
  }

  /** The corrected search reports both sentences when both mention the
      word. */
  lemma CorrectedFindsBoth(word: string, matchPattern: Option<string>, para: Paragraph, s1: string, s2: string)
    requires SplitIntoSentences(para.content) == [s1, s2]
    requires Mentions(s1, Alternatives(word, matchPattern)) && Mentions(s2, Alternatives(word, matchPattern))
    requires LowerStr(s1) != LowerStr(s2)
    ensures SearchResults(word, matchPattern, None, [], [para]) == [Hit(para, map[], s1), Hit(para, map[], s2)]
  {
    var titles := TitleMap([]);
    var test := SearchTest(word, matchPattern);
    assert titles == map[];
    assert test(s1) && test(s2);
    CollectedTwo(para, None, titles, test, s1, s2);
    var h1, h2 := Hit(para, titles, s1), Hit(para, titles, s2);
    assert TextKey(h1) != TextKey(h2);
    FirstByKeyTwo(h1, h2, TextKey);
  }

  lemma FirstByKeyTwo<T>(x: T, y: T, key: T -> string)
    requires key(x) != key(y)
    ensures FirstByKey([x, y], key) == [x, y]
  {
    FirstByKeyDistinct([x, y], key);
  }

  /** On the sample paragraph, "The cat sat. A cat ran.", the search as
      written for "cat" returns only the first sentence, while both
      sentences mention the word and the corrected search returns both. */
  lemma AsWrittenMissesSecondSentence()
    ensures Mentions(First, ["cat"]) && Mentions(Second, ["cat"])
    ensures SearchAsWritten("cat", None, None, [], [SamplePara()]) == [Hit(SamplePara(), map[], First)]
    ensures SearchResults("cat", None, None, [], [SamplePara()]) ==
      [Hit(SamplePara(), map[], First), Hit(SamplePara(), map[], Second)]
  {
    SampleFirstTest();
    SampleSecondTest();
    SampleAlternatives();
    SampleSentences();
    assert |LowerStr(First)| != |LowerStr(Second)|;
    AsWrittenMisses("cat", None, SamplePara(), First, Second, 7);
    CorrectedFindsBoth("cat", None, SamplePara(), First, Second);
  }
}
