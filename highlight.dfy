/** The span matcher of the editor preview (`segmentVocabMap`): every pattern
    of every entry, longest word first, is matched at every segment position;
    a pattern is a list of parts separated by `...`, each part a list of words
    matched against consecutive non-space segments. The first part must start
    exactly at the position, every later part is searched for in a window of
    `Lookahead` segments after the previous part. The segments a full match
    covers are claimed by the entry unless an earlier (longer) entry claimed
    them first. */
module Highlight {
  import opened Strs
  import opened Tokenizer
  import opened Vocab
  import opened LengthSort

  /** How far (in segments) a later part may be searched for. */
  const Lookahead: nat := 30

  function Min(a: nat, b: nat): nat {
    if a <= b then a else b
  }

  /** `(seg.word || seg.content || '').toLowerCase()` */
  function SegWord(seg: Segment): string {
    LowerStr(seg.Key())
  }

  /** The state of the inner word scan: segment index, word index and the
      indices of the segments matched so far. */
  datatype Scan = Scan(g: nat, w: nat, idx: seq<nat>)

  /** The word scan: white-space segments are skipped, a segment equal to the
      next word is taken, anything else stops the scan. */
  function ScanPart(segs: seq<Segment>, words: seq<string>, g: nat, w: nat, idx: seq<nat>): Scan
    decreases |segs| - g
  {
    if w < |words| && g < |segs| then
      if segs[g].Space? then ScanPart(segs, words, g + 1, w, idx)
      else if SegWord(segs[g]) == words[w] then ScanPart(segs, words, g + 1, w + 1, idx + [g])
      else Scan(g, w, idx)
    else Scan(g, w, idx)
  }

  /** The segments one matched part covers; a part without words has no first
      and last index, and marks nothing. */
  datatype Range = Span(start: nat, end: nat) | Unset

  function RangeOf(idx: seq<nat>): Range {
    if idx == [] then Unset else Span(idx[0], idx[|idx| - 1])
  }

  /** Where the search for the next part starts after a part found at `s`. */
  function EndOf(s: nat, idx: seq<nat>): nat {
    if idx == [] then s else idx[|idx| - 1] + 1
  }

  /** One part found at `at`: the range it covers and where the next part's
      search begins. */
  datatype Hit = Hit(at: nat, range: Range, next: nat)

  /** The part `words` tried at exactly `s`. */
  function HitAt(segs: seq<Segment>, words: seq<string>, s: nat): Option<Hit> {
    var sc := ScanPart(segs, words, s, 0, []);
    if sc.w == |words| then Some(Hit(s, RangeOf(sc.idx), sc.g)) else None
  }

  /** The first position in `[from, end)` where the part is found. */
  function FindPart(segs: seq<Segment>, words: seq<string>, from: nat, end: nat): Option<Hit> {
    FirstHit(HitFn(segs, words), from, end)
  }

  function HitFn(segs: seq<Segment>, words: seq<string>): nat -> Option<Hit> {
    (s: nat) => HitAt(segs, words, s)
  }

  /** The first of `f(from), ..., f(end - 1)` that is a hit. */
  function FirstHit(f: nat -> Option<Hit>, from: nat, end: nat): Option<Hit>
    decreases end - from
  {
    if from >= end then None
    else match f(from)
      case Some(h) => Some(h)
      case None => FirstHit(f, from + 1, end)
  }

  lemma FindPartStep(segs: seq<Segment>, words: seq<string>, from: nat, end: nat)
    requires from < end
    ensures FindPart(segs, words, from, end)
      == if HitAt(segs, words, from).Some? then HitAt(segs, words, from) else FindPart(segs, words, from + 1, end)
  {
    assert HitFn(segs, words)(from) == HitAt(segs, words, from);
  }

  /** The start of part `p`'s search window. */
  function WindowFrom(i: nat, p: nat, cur: nat): nat {
    if p == 0 then i else cur
  }

  /** The end (exclusive) of part `p`'s search window. */
  function WindowEnd(segs: seq<Segment>, i: nat, p: nat, cur: nat): nat {
    Min(|segs|, if p == 0 then i + 1 else cur + Lookahead)
  }

  /** Parts `p..` of a pattern, after `hits` were found and the search
      continues at `cur`. */
  function MatchParts(segs: seq<Segment>, parts: seq<seq<string>>, i: nat, p: nat, cur: nat, hits: seq<Hit>): Option<seq<Hit>>
    decreases |parts| - p
  {
    if p >= |parts| then Some(hits)
    else match FindPart(segs, parts[p], WindowFrom(i, p, cur), WindowEnd(segs, i, p, cur))
      case None => None
      case Some(h) => MatchParts(segs, parts, i, p + 1, h.next, hits + [h])
  }

  /** The whole pattern tried at segment position `i`. */
  function MatchAt(segs: seq<Segment>, parts: seq<seq<string>>, i: nat): Option<seq<Hit>> {
    MatchParts(segs, parts, i, 0, i, [])
  }

  /** The ranges of the hits, in part order. */
  function Ranges(hits: seq<Hit>): (r: seq<Range>)
    ensures |r| == |hits| && forall j :: 0 <= j < |hits| ==> r[j] == hits[j].range
  {
    if hits == [] then [] else Ranges(hits[..|hits| - 1]) + [hits[|hits| - 1].range]
  }

  /** The keys `a <= k < b`. */
  function Interval(a: nat, b: nat): (r: set<nat>)
    ensures forall k :: k in r <==> a <= k < b
    decreases b
  {
    if b <= a then {} else Interval(a, b - 1) + {b - 1}
  }

  function RangeSet(r: Range): set<nat> {
    if r.Span? then Interval(r.start, r.end + 1) else {}
  }

  function RangesSet(rs: seq<Range>): set<nat> {
    if rs == [] then {} else RangesSet(rs[..|rs| - 1]) + RangeSet(rs[|rs| - 1])
  }

  /** The segments a match of the pattern at `i` covers. */
  function CoverAt(segs: seq<Segment>, parts: seq<seq<string>>, i: nat): set<nat> {
    match MatchAt(segs, parts, i)
    case None => {}
    case Some(hits) => RangesSet(Ranges(hits))
  }

  /** `f(0) + ... + f(n - 1)`. */
  function UnionUpTo(f: nat -> set<nat>, n: nat): set<nat> {
    if n == 0 then {} else UnionUpTo(f, n - 1) + f(n - 1)
  }

  /** `f(0) || ... || f(n - 1)`. */
  function AnyUpTo(f: nat -> bool, n: nat): bool {
    n > 0 && (AnyUpTo(f, n - 1) || f(n - 1))
  }

  function CoverFn(segs: seq<Segment>, parts: seq<seq<string>>): nat -> set<nat> {
    (i: nat) => CoverAt(segs, parts, i)
  }

  /** The segments the pattern covers from positions `0..n`. */
  function PatternCover(segs: seq<Segment>, parts: seq<seq<string>>, n: nat): set<nat> {
    UnionUpTo(CoverFn(segs, parts), n)
  }

  /** The segments one pattern covers; an unusable pattern covers nothing. */
  function PatternOwnCover(segs: seq<Segment>, pattern: string): set<nat> {
    var parts := PartWords(pattern);
    if Usable(parts) then PatternCover(segs, parts, |segs|) else {}
  }

  function OwnCoverFn(segs: seq<Segment>, pats: seq<string>): nat -> set<nat> {
    (q: nat) => if q < |pats| then PatternOwnCover(segs, pats[q]) else {}
  }

  /** The segments the first `n` patterns cover. */
  function PatternsCover(segs: seq<Segment>, pats: seq<string>, n: nat): set<nat> {
    UnionUpTo(OwnCoverFn(segs, pats), n)
  }

  /** The segments an entry covers through any of its patterns. */
  function EntryCover(segs: seq<Segment>, v: Entry): set<nat> {
    PatternsCover(segs, Patterns(v), |Patterns(v)|)
  }

  /** `map[k] = v` for the keys of `S` not yet claimed. */
  function ClaimSet(m: map<nat, Entry>, S: set<nat>, v: Entry): map<nat, Entry> {
    map k | k in m.Keys + S :: if k in m then m[k] else v
  }

  /** The map after the first `n` entries of `sorted`, entry `j` covering
      `f(j)`. */
  function ClaimAll(f: nat -> set<nat>, sorted: seq<Entry>, n: nat): map<nat, Entry>
    requires n <= |sorted|
  {
    if n == 0 then map[] else ClaimSet(ClaimAll(f, sorted, n - 1), f(n - 1), sorted[n - 1])
  }

  function EntryCoverFn(segs: seq<Segment>, sorted: seq<Entry>): nat -> set<nat> {
    (j: nat) => if j < |sorted| then EntryCover(segs, sorted[j]) else {}
  }

  /** The map after the first `n` entries of the priority order. */
  function Claims(segs: seq<Segment>, sorted: seq<Entry>, n: nat): map<nat, Entry>
    requires n <= |sorted|
  {
    ClaimAll(EntryCoverFn(segs, sorted), sorted, n)
  }

  /** The segment-to-entry map of the preview. */
  function HighlightMap(segs: seq<Segment>, vocab: seq<Entry>): map<nat, Entry> {
    if |vocab| == 0 then map[] else Claims(segs, SortByLength(vocab), |vocab|)
  }

  /** Whether the pattern matches at some position from `i` on; this is all
      `matchedVocabIds` asks of a pattern. */
  function AnyMatchFrom(segs: seq<Segment>, parts: seq<seq<string>>, i: nat): bool {
    AnyFrom(FoundFn(segs, parts), i, |segs|)
  }

  function FoundFn(segs: seq<Segment>, parts: seq<seq<string>>): nat -> bool {
    (i: nat) => MatchAt(segs, parts, i).Some?
  }

  /** `f(i) || ... || f(n - 1)`, tried in that order. */
  function AnyFrom(f: nat -> bool, i: nat, n: nat): bool
    decreases n - i
  {
    i < n && (f(i) || AnyFrom(f, i + 1, n))
  }

  /** A usable pattern that matches somewhere. */
  predicate PatternMatches(segs: seq<Segment>, pattern: string) {
    var parts := PartWords(pattern);
    Usable(parts) && AnyMatchFrom(segs, parts, 0)
  }

  function MatchFn(segs: seq<Segment>, pats: seq<string>): nat -> bool {
    (q: nat) => q < |pats| && PatternMatches(segs, pats[q])
  }

  /** Whether one of the first `n` patterns matches. */
  function AnyPatternMatches(segs: seq<Segment>, pats: seq<string>, n: nat): bool {
    AnyUpTo(MatchFn(segs, pats), n)
  }

  /** An entry matches when one of its patterns does. */
  predicate EntryMatches(segs: seq<Segment>, v: Entry) {
    AnyPatternMatches(segs, Patterns(v), |Patterns(v)|)
  }

  // ---------------------------------------------------------------------
  // The loops of `segmentVocabMap`

  /** The `while (wIdx < partWords.length && gIdx < segments.length)` scan. */
  method ScanWords(segs: seq<Segment>, words: seq<string>, start: nat) returns (g: nat, w: nat, idx: seq<nat>)
    ensures Scan(g, w, idx) == ScanPart(segs, words, start, 0, [])
  {
    g, w, idx := start, 0, [];
    while w < |words| && g < |segs|
      invariant ScanPart(segs, words, g, w, idx) == ScanPart(segs, words, start, 0, [])
      decreases |segs| - g
    {
      var seg := segs[g];
      if seg.Space? {
        g := g + 1;
        continue;
      }
      var currentWord := LowerStr(seg.Key());
      if currentWord == words[w] {
        idx := idx + [g];
        w := w + 1;
        g := g + 1;
      } else {
        break;
      }
    }
  }

  /** The `searchIdx` loop of one part; `first` is `pIdx === 0`, where the
      window is the single position `from`. */
  method SearchPart(segs: seq<Segment>, words: seq<string>, from: nat, limit: nat, first: bool) returns (hit: Option<Hit>)
    requires first ==> limit == from + 1
    ensures hit == FindPart(segs, words, from, Min(|segs|, limit))
  {
    hit := None;
    var searchIdx := from;
    while searchIdx < Min(|segs|, limit)
      invariant from <= searchIdx
      invariant FindPart(segs, words, searchIdx, Min(|segs|, limit)) == FindPart(segs, words, from, Min(|segs|, limit))
      decreases Min(|segs|, limit) - searchIdx
    {
      var g, w, idx := ScanWords(segs, words, searchIdx);
      FindPartStep(segs, words, searchIdx, Min(|segs|, limit));
      if w == |words| {
        hit := Some(Hit(searchIdx, RangeOf(idx), g));
        return;
      }
      if first {
        break;
      }
      searchIdx := searchIdx + 1;
    }
  }

  /** The search for part `pIdx`: from `i` in a one-position window for the
      first part, from `currentSegIdx` over `Lookahead` positions for the
      others. */
  method SearchNext(segs: seq<Segment>, parts: seq<seq<string>>, i: nat, pIdx: nat, currentSegIdx: nat) returns (hit: Option<Hit>)
    requires pIdx < |parts|
    ensures hit == FindPart(segs, parts[pIdx], WindowFrom(i, pIdx, currentSegIdx), WindowEnd(segs, i, pIdx, currentSegIdx))
  {
    if pIdx == 0 {
      hit := SearchPart(segs, parts[0], i, i + 1, true);
    } else {
      hit := SearchPart(segs, parts[pIdx], currentSegIdx, currentSegIdx + Lookahead, false);
    }
  }

  lemma MatchPartsStep(segs: seq<Segment>, parts: seq<seq<string>>, i: nat, p: nat, cur: nat, hits: seq<Hit>, hit: Option<Hit>)
    requires p < |parts| && hit == FindPart(segs, parts[p], WindowFrom(i, p, cur), WindowEnd(segs, i, p, cur))
    ensures MatchParts(segs, parts, i, p, cur, hits)
      == if hit.None? then None else MatchParts(segs, parts, i, p + 1, hit.value.next, hits + [hit.value])
  {
  }

  lemma RangesAppend(hits: seq<Hit>, h: Hit)
    ensures Ranges(hits + [h]) == Ranges(hits) + [h.range]
  {
    assert (hits + [h])[..|hits|] == hits;
  }

  /** The `pIdx` loop: whether the whole pattern matches at `i`, and the
      ranges to mark when it does. */
  method MatchPattern(segs: seq<Segment>, parts: seq<seq<string>>, i: nat) returns (matchedAllParts: bool, rangesToMark: seq<Range>)
    ensures matchedAllParts <==> MatchAt(segs, parts, i).Some?
    ensures matchedAllParts ==> rangesToMark == Ranges(MatchAt(segs, parts, i).value)
  {
    var currentSegIdx: nat := i;
    matchedAllParts := true;
    rangesToMark := [];
    ghost var hits: seq<Hit> := [];
    for pIdx := 0 to |parts|
      invariant MatchParts(segs, parts, i, pIdx, currentSegIdx, hits) == MatchAt(segs, parts, i)
      invariant rangesToMark == Ranges(hits)
    {
      var hit := SearchNext(segs, parts, i, pIdx, currentSegIdx);
      MatchPartsStep(segs, parts, i, pIdx, currentSegIdx, hits, hit);
      if hit.None? {
        matchedAllParts := false;
        return;
      }
      RangesAppend(hits, hit.value);
      rangesToMark := rangesToMark + [hit.value.range];
      hits := hits + [hit.value];
      currentSegIdx := hit.value.next;
    }
  }

  /** `for (let k = range.start; k <= range.end; k++) if (!map[k]) map[k] = v;`
      (with `Unset` bounds the loop does not run). */
  method MarkRange(m0: map<nat, Entry>, range: Range, v: Entry) returns (m: map<nat, Entry>)
    ensures m == ClaimSet(m0, RangeSet(range), v)
  {
    m := m0;
    if range.Span? {
      var k := range.start;
      while k <= range.end
        invariant range.start <= k && (k <= range.end + 1 || k == range.start)
        invariant m == ClaimSet(m0, Interval(range.start, k), v)
        decreases range.end + 1 - k
      {
        if k !in m {
          ClaimOne(m0, Interval(range.start, k), k, v);
          m := m[k := v];
        } else {
          ClaimIn(m0, Interval(range.start, k), k, v);
        }
        k := k + 1;
      }
      assert Interval(range.start, k) == RangeSet(range);
    }
  }

  /** `rangesToMark.forEach(...)`: every covered key not yet in the map is
      given to `v`. */
  method MarkRanges(m0: map<nat, Entry>, ranges: seq<Range>, v: Entry) returns (m: map<nat, Entry>)
    ensures m == ClaimSet(m0, RangesSet(ranges), v)
  {
    m := m0;
    var r := 0;
    while r < |ranges|
      invariant r <= |ranges|
      invariant m == ClaimSet(m0, RangesSet(ranges[..r]), v)
    {
      ClaimSetUnion(m0, RangesSet(ranges[..r]), RangeSet(ranges[r]), v);
      assert ranges[..r + 1][..r] == ranges[..r];
      m := MarkRange(m, ranges[r], v);
      r := r + 1;
    }
    assert ranges[..r] == ranges;
  }

  /** Claiming one more unclaimed key. */
  lemma ClaimOne(m0: map<nat, Entry>, S: set<nat>, k: nat, v: Entry)
    requires k !in ClaimSet(m0, S, v)
    ensures ClaimSet(m0, S, v)[k := v] == ClaimSet(m0, S + {k}, v)
  {
  }

  /** Claiming a key that is already taken changes nothing. */
  lemma ClaimIn(m0: map<nat, Entry>, S: set<nat>, k: nat, v: Entry)
    requires k in ClaimSet(m0, S, v)
    ensures ClaimSet(m0, S, v) == ClaimSet(m0, S + {k}, v)
  {
  }

  /** Claiming `A` then `B` is claiming `A + B`. */
  lemma ClaimSetUnion(m: map<nat, Entry>, A: set<nat>, B: set<nat>, v: Entry)
    ensures ClaimSet(ClaimSet(m, A, v), B, v) == ClaimSet(m, A + B, v)
  {
  }

  lemma PatternCoverStep(segs: seq<Segment>, parts: seq<seq<string>>, i: nat)
    ensures PatternCover(segs, parts, i + 1) == PatternCover(segs, parts, i) + CoverAt(segs, parts, i)
  {
    assert CoverFn(segs, parts)(i) == CoverAt(segs, parts, i);
  }

  /** One position of the loop: match the whole pattern at `i` and, when it
      matches, mark its ranges. */
  method MarkAt(m0: map<nat, Entry>, segs: seq<Segment>, partWordsList: seq<seq<string>>, i: nat, v: Entry) returns (m: map<nat, Entry>)
    ensures m == ClaimSet(m0, CoverAt(segs, partWordsList, i), v)
  {
    var matchedAllParts, rangesToMark := MatchPattern(segs, partWordsList, i);
    if matchedAllParts {
      m := MarkRanges(m0, rangesToMark, v);
    } else {
      m := m0;
    }
  }

  /** The position loop of one usable pattern. */
  method MarkPattern(m0: map<nat, Entry>, segs: seq<Segment>, partWordsList: seq<seq<string>>, v: Entry) returns (m: map<nat, Entry>)
    ensures m == ClaimSet(m0, PatternCover(segs, partWordsList, |segs|), v)
  {
    m := m0;
    for i := 0 to |segs|
      invariant m == ClaimSet(m0, PatternCover(segs, partWordsList, i), v)
    {
      PatternCoverStep(segs, partWordsList, i);
      ClaimSetUnion(m0, PatternCover(segs, partWordsList, i), CoverAt(segs, partWordsList, i), v);
      m := MarkAt(m, segs, partWordsList, i, v);
    }
  }

  /** One pattern: split into parts, skipped when unusable, else matched at
      every position. */
  method MarkOnePattern(m0: map<nat, Entry>, segs: seq<Segment>, pattern: string, v: Entry) returns (m: map<nat, Entry>)
    ensures m == ClaimSet(m0, PatternOwnCover(segs, pattern), v)
  {
    var partWordsList := PartWords(pattern);
    if |partWordsList| == 0 || |partWordsList[0]| == 0 {
      return m0;
    }
    m := MarkPattern(m0, segs, partWordsList, v);
  }

  lemma PatternsCoverStep(m0: map<nat, Entry>, m1: map<nat, Entry>, m2: map<nat, Entry>, segs: seq<Segment>, pats: seq<string>, q: nat, v: Entry)
    requires q < |pats|
    requires m1 == ClaimSet(m0, PatternsCover(segs, pats, q), v)
    requires m2 == ClaimSet(m1, PatternOwnCover(segs, pats[q]), v)
    ensures m2 == ClaimSet(m0, PatternsCover(segs, pats, q + 1), v)
  {
    ClaimSetUnion(m0, PatternsCover(segs, pats, q), PatternOwnCover(segs, pats[q]), v);
  }

  /** The pattern loop of one entry. */
  method MarkEntry(m0: map<nat, Entry>, segs: seq<Segment>, v: Entry) returns (m: map<nat, Entry>)
    ensures m == ClaimSet(m0, EntryCover(segs, v), v)
  {
    m := m0;
    var patterns := Patterns(v);
    var q := 0;
    while q < |patterns|
      invariant q <= |patterns|
      invariant m == ClaimSet(m0, PatternsCover(segs, patterns, q), v)
    {
      ghost var m1 := m;
      m := MarkOnePattern(m, segs, patterns[q], v);
      PatternsCoverStep(m0, m1, m, segs, patterns, q, v);
      q := q + 1;
    }
  }

  lemma ClaimsStep(segs: seq<Segment>, sorted: seq<Entry>, e: nat)
    requires e < |sorted|
    ensures Claims(segs, sorted, e + 1) == ClaimSet(Claims(segs, sorted, e), EntryCover(segs, sorted[e]), sorted[e])
  {
    assert EntryCoverFn(segs, sorted)(e) == EntryCover(segs, sorted[e]);
  }

  /** `segmentVocabMap`: the priority sort and the entry loop. */
  method SegmentVocabMap(segs: seq<Segment>, vocab: seq<Entry>) returns (m: map<nat, Entry>)
    ensures m == HighlightMap(segs, vocab)
  {
    m := map[];
    if |vocab| == 0 {
      return;
    }
    var sortedVocabs := SortByLength(vocab);
    var e := 0;
    while e < |sortedVocabs|
      invariant e <= |sortedVocabs|
      invariant m == Claims(segs, sortedVocabs, e)
    {
      m := MarkEntry(m, segs, sortedVocabs[e]);
      ClaimsStep(segs, sortedVocabs, e);
      e := e + 1;
    }
  }
}
