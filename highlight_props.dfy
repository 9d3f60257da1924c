/** What the span matcher computes, stated without its loops: a part matches
    at a position when its words appear there on consecutive non-space
    segments; the search takes the first such position in the window; a
    pattern matches when every part is found that way in turn; and the map
    gives each covered segment to the first covering entry in the priority
    order, hence to a longest covering entry. */
module HighlightProps {
  import opened Strs
  import opened Tokenizer
  import opened Vocab
  import opened LengthSort
  import opened Highlight

  // ---------------------------------------------------------------------
  // One part at one position

  /** The positions of the non-space segments from `g` on, in order. */
  function NonSpace(segs: seq<Segment>, g: nat): seq<nat>
    decreases |segs| - g
  {
    if g >= |segs| then []
    else if segs[g].Space? then NonSpace(segs, g + 1)
    else [g] + NonSpace(segs, g + 1)
  }

  /** `NonSpace` lists exactly the non-space segments from `g` on, in
      increasing order. */
  lemma {:induction false} NonSpaceFacts(segs: seq<Segment>, g: nat)
    ensures var r := NonSpace(segs, g);
      && (forall k :: 0 <= k < |r| ==> g <= r[k] < |segs| && !segs[r[k]].Space?)
      && (forall k, j :: 0 <= k < j < |r| ==> r[k] < r[j])
      && (forall x :: g <= x < |segs| && !segs[x].Space? ==> x in r)
    decreases |segs| - g
  {
    if g < |segs| {
      NonSpaceFacts(segs, g + 1);
      var r := NonSpace(segs, g);
      var r' := NonSpace(segs, g + 1);
      if !segs[g].Space? {
        assert r == [g] + r';
        forall k, j | 0 <= k < j < |r| ensures r[k] < r[j] {
          assert r[j] == r'[j - 1];
          if k > 0 {
            assert r[k] == r'[k - 1];
          }
        }
        forall x | g <= x < |segs| && !segs[x].Space? ensures x in r {
          if x > g {
            assert x in r';
          }
        }
      }
    }
  }

  /** The segments at `ns` begin with the words of `words`, compared
      lower-cased. */
  ghost predicate Spells(segs: seq<Segment>, ns: seq<nat>, words: seq<string>) {
    SpellsBy(WordFn(segs), |segs|, ns, words)
  }

  /** The lower-cased word of each position of the text. */
  function WordFn(segs: seq<Segment>): nat -> string {
    (n: nat) => if n < |segs| then SegWord(segs[n]) else []
  }

  /** The positions `ns`, all below `len`, carry the words `words` under `f`. */
  ghost predicate SpellsBy(f: nat -> string, len: nat, ns: seq<nat>, words: seq<string>) {
    |words| <= |ns| && forall k :: 0 <= k < |words| ==> ns[k] < len && f(ns[k]) == words[k]
  }

  lemma SpellsByCons(f: nat -> string, len: nat, g: nat, ns: seq<nat>, words: seq<string>)
    requires g < len && words != [] && f(g) == words[0]
    ensures SpellsBy(f, len, [g] + ns, words) <==> SpellsBy(f, len, ns, words[1..])
  {
    var ns0 := [g] + ns;
    if SpellsBy(f, len, ns, words[1..]) {
      forall k | 0 <= k < |words| ensures ns0[k] < len && f(ns0[k]) == words[k] {
        if k > 0 {
          assert ns0[k] == ns[k - 1] && words[k] == words[1..][k - 1];
        }
      }
    }
    if SpellsBy(f, len, ns0, words) {
      forall k | 0 <= k < |words[1..]| ensures ns[k] < len && f(ns[k]) == words[1..][k] {
        assert ns[k] == ns0[k + 1] && words[1..][k] == words[k + 1];
      }
    }
  }

  /** Spelling with a matching first segment is spelling the rest. */
  lemma SpellsCons(segs: seq<Segment>, g: nat, ns: seq<nat>, words: seq<string>)
    requires g < |segs| && words != [] && SegWord(segs[g]) == words[0]
    ensures Spells(segs, [g] + ns, words) <==> Spells(segs, ns, words[1..])
  {
    assert WordFn(segs)(g) == SegWord(segs[g]);
    SpellsByCons(WordFn(segs), |segs|, g, ns, words);
  }

  lemma ConsTake(x: nat, t: seq<nat>, n: nat)
    requires 0 < n <= |t| + 1
    ensures ([x] + t)[..n] == [x] + t[..n - 1]
  {
  }

  /** The scan reaches the end of the words exactly when the non-space
      segments spell them. */
  lemma {:induction false} ScanSpells(segs: seq<Segment>, words: seq<string>, g: nat, w: nat, idx: seq<nat>)
    requires w <= |words|
    ensures ScanPart(segs, words, g, w, idx).w == |words| <==> Spells(segs, NonSpace(segs, g), words[w..])
    decreases |segs| - g
  {
    var ns := NonSpace(segs, g);
    if w < |words| && g < |segs| {
      if segs[g].Space? {
        assert ns == NonSpace(segs, g + 1);
        ScanSpells(segs, words, g + 1, w, idx);
      } else {
        var ns' := NonSpace(segs, g + 1);
        assert ns == [g] + ns';
        if SegWord(segs[g]) == words[w] {
          ScanSpells(segs, words, g + 1, w + 1, idx + [g]);
          assert words[w..][1..] == words[w + 1..];
          SpellsCons(segs, g, ns', words[w..]);
        } else {
          assert !Spells(segs, ns, words[w..]) by {
            assert ns[0] == g && words[w..][0] == words[w];
            assert WordFn(segs)(g) == SegWord(segs[g]);
          }
        }
      }
    } else if w == |words| {
      assert Spells(segs, ns, words[w..]);
    } else {
      assert ns == [];
    }
  }

  /** A complete scan took the first non-space segments, one per word, and
      stopped right after the last of them. */
  lemma {:induction false} ScanTaken(segs: seq<Segment>, words: seq<string>, g: nat, w: nat, idx: seq<nat>)
    requires w <= |words|
    requires ScanPart(segs, words, g, w, idx).w == |words|
    ensures var ns := NonSpace(segs, g);
      && |words| - w <= |ns|
      && ScanPart(segs, words, g, w, idx).idx == idx + ns[..|words| - w]
      && ScanPart(segs, words, g, w, idx).g == (if w == |words| then g else ns[|words| - w - 1] + 1)
    decreases |segs| - g
  {
    var ns := NonSpace(segs, g);
    if w < |words| && g < |segs| {
      if segs[g].Space? {
        assert ns == NonSpace(segs, g + 1);
        assert ScanPart(segs, words, g, w, idx) == ScanPart(segs, words, g + 1, w, idx);
        ScanTaken(segs, words, g + 1, w, idx);
      } else {
        var ns' := NonSpace(segs, g + 1);
        var n := |words| - w;
        assert ns == [g] + ns';
        assert SegWord(segs[g]) == words[w];
        assert ScanPart(segs, words, g, w, idx) == ScanPart(segs, words, g + 1, w + 1, idx + [g]);
        ScanTaken(segs, words, g + 1, w + 1, idx + [g]);
        ConsTake(g, ns', n);
        assert (idx + [g]) + ns'[..n - 1] == idx + ([g] + ns'[..n - 1]);
        if n > 1 {
          assert ns[n - 1] == ns'[n - 2];
        }
      }
    } else {
      assert ns[..0] == [];
    }
  }

  /** A part matches at `s` exactly when the non-space segments from `s` on
      begin with its words; the hit then covers the first to the last of
      those segments, and the next part's search starts right after the
      last one. */
  lemma HitAtSpec(segs: seq<Segment>, words: seq<string>, s: nat)
    ensures var ns := NonSpace(segs, s);
      && (HitAt(segs, words, s).Some? <==> Spells(segs, ns, words))
      && (Spells(segs, ns, words) ==>
            HitAt(segs, words, s) == Some(Hit(s, RangeOf(ns[..|words|]), EndOf(s, ns[..|words|]))))
  {
    ScanSpells(segs, words, s, 0, []);
    assert words[0..] == words;
    if Spells(segs, NonSpace(segs, s), words) {
      HitAtTaken(segs, words, s);
    }
  }

  /** A complete scan from `s` becomes the hit of the first non-space
      segments. */
  lemma HitAtTaken(segs: seq<Segment>, words: seq<string>, s: nat)
    requires ScanPart(segs, words, s, 0, []).w == |words|
    ensures var ns := NonSpace(segs, s);
      |words| <= |ns| && HitAt(segs, words, s) == Some(Hit(s, RangeOf(ns[..|words|]), EndOf(s, ns[..|words|])))
  {
    var ns := NonSpace(segs, s);
    var sc := ScanPart(segs, words, s, 0, []);
    ScanTaken(segs, words, s, 0, []);
    var taken := ns[..|words|];
    assert sc.idx == taken by {
      assert [] + taken == taken;
    }
    assert sc.g == EndOf(s, taken) by {
      if words != [] {
        assert taken[|taken| - 1] == ns[|words| - 1];
      }
    }
  }

  // ---------------------------------------------------------------------
  // The search window

  /** The search returns the first position of the window where the part
      matches, and nothing when it matches nowhere in the window. */
  lemma {:induction false} FirstHitSpec(f: nat -> Option<Hit>, from: nat, end: nat)
    requires forall s :: f(s).Some? ==> f(s).value.at == s
    ensures FirstHit(f, from, end).None? <==> forall s :: from <= s < end ==> f(s).None?
    ensures FirstHit(f, from, end).Some? ==>
      var h := FirstHit(f, from, end).value;
      && from <= h.at < end && f(h.at) == Some(h)
      && forall s :: from <= s < h.at ==> f(s).None?
    decreases end - from
  {
    if from < end && f(from).None? {
      FirstHitSpec(f, from + 1, end);
      var r := FirstHit(f, from, end);
      if r.Some? {
        forall s | from <= s < r.value.at ensures f(s).None? {
          if s > from {
            assert from + 1 <= s < r.value.at;
          }
        }
      }
    }
  }

  lemma FindPartSpec(segs: seq<Segment>, words: seq<string>, from: nat, end: nat)
    ensures FindPart(segs, words, from, end).None? <==>
      forall s :: from <= s < end ==> HitAt(segs, words, s).None?
    ensures FindPart(segs, words, from, end).Some? ==>
      var h := FindPart(segs, words, from, end).value;
      && from <= h.at < end && HitAt(segs, words, h.at) == Some(h)
      && forall s :: from <= s < h.at ==> HitAt(segs, words, s).None?
  {
    assert forall s :: HitFn(segs, words)(s) == HitAt(segs, words, s);
    FirstHitSpec(HitFn(segs, words), from, end);
  }

  // ---------------------------------------------------------------------
  // Whole patterns

  /** Where part `p` of the pattern at `i` is searched from. */
  function Cur(i: nat, hits: seq<Hit>, p: nat): nat
    requires p <= |hits|
  {
    if p == 0 then i else hits[p - 1].next
  }

  /** Part `p`'s hit is what the search in its window returns. */
  ghost predicate PartOk(segs: seq<Segment>, parts: seq<seq<string>>, i: nat, hits: seq<Hit>, p: nat)
    requires p < |hits| && p < |parts|
  {
    var cur := Cur(i, hits, p);
    FindPart(segs, parts[p], WindowFrom(i, p, cur), WindowEnd(segs, i, p, cur)) == Some(hits[p])
  }

  /** A greedy chain: one hit per part, each the first match in its window,
      the window of part 0 being the single position `i` and that of every
      later part the `Lookahead` segments from where the previous part
      ended. */
  ghost predicate Greedy(segs: seq<Segment>, parts: seq<seq<string>>, i: nat, hits: seq<Hit>) {
    |hits| == |parts| && forall p :: 0 <= p < |hits| ==> PartOk(segs, parts, i, hits, p)
  }

  lemma PartOkPrefix(segs: seq<Segment>, parts: seq<seq<string>>, i: nat, a: seq<Hit>, b: seq<Hit>, p: nat)
    requires p < |a| && p < |b| && p < |parts| && a[..p + 1] == b[..p + 1]
    ensures PartOk(segs, parts, i, a, p) == PartOk(segs, parts, i, b, p)
  {
    assert a[p] == a[..p + 1][p] && b[p] == b[..p + 1][p];
    if p > 0 {
      assert a[p - 1] == a[..p + 1][p - 1] && b[p - 1] == b[..p + 1][p - 1];
    }
  }

  /** A greedy chain that extends `acc` takes, for the next part, what
      the search in that part's window returns. */
  lemma GreedyFound(segs: seq<Segment>, parts: seq<seq<string>>, i: nat, acc: seq<Hit>, hits: seq<Hit>)
    requires |acc| < |parts|
    requires Greedy(segs, parts, i, hits) && hits[..|acc|] == acc
    ensures var p := |acc|; var cur := Cur(i, acc, p);
      FindPart(segs, parts[p], WindowFrom(i, p, cur), WindowEnd(segs, i, p, cur)) == Some(hits[p])
  {
    var p := |acc|;
    assert Cur(i, hits, p) == Cur(i, acc, p) by {
      if p > 0 { assert hits[p - 1] == hits[..p][p - 1]; }
    }
    assert PartOk(segs, parts, i, hits, p);
  }

  /** Appending the hit the search returns for the next part keeps every
      part of the accumulated chain right. */
  lemma PartsOkSnoc(segs: seq<Segment>, parts: seq<seq<string>>, i: nat, acc: seq<Hit>, h: Hit)
    requires |acc| < |parts|
    requires forall q :: 0 <= q < |acc| ==> PartOk(segs, parts, i, acc, q)
    requires var p := |acc|; var cur := Cur(i, acc, p);
      FindPart(segs, parts[p], WindowFrom(i, p, cur), WindowEnd(segs, i, p, cur)) == Some(h)
    ensures forall q :: 0 <= q < |acc| + 1 ==> PartOk(segs, parts, i, acc + [h], q)
  {
    var p := |acc|;
    var acc' := acc + [h];
    forall q | 0 <= q < p + 1 ensures PartOk(segs, parts, i, acc', q) {
      if q < p {
        assert acc'[..q + 1] == acc[..q + 1];
        PartOkPrefix(segs, parts, i, acc', acc, q);
      } else {
        assert Cur(i, acc', p) == Cur(i, acc, p) by {
          if p > 0 { assert acc'[p - 1] == acc[p - 1]; }
        }
      }
    }
  }

  lemma {:induction false} MatchPartsSpec(segs: seq<Segment>, parts: seq<seq<string>>, i: nat, p: nat, acc: seq<Hit>, hits: seq<Hit>)
    requires |acc| == p <= |parts|
    requires forall q :: 0 <= q < p ==> PartOk(segs, parts, i, acc, q)
    ensures MatchParts(segs, parts, i, p, Cur(i, acc, p), acc) == Some(hits) <==>
      Greedy(segs, parts, i, hits) && hits[..p] == acc
    decreases |parts| - p
  {
    var cur := Cur(i, acc, p);
    if p == |parts| {
      if Greedy(segs, parts, i, hits) && hits[..p] == acc {
        assert hits == hits[..p];
      }
      if hits == acc {
        assert hits[..p] == acc;
      }
    } else {
      var found := FindPart(segs, parts[p], WindowFrom(i, p, cur), WindowEnd(segs, i, p, cur));
      if Greedy(segs, parts, i, hits) && hits[..p] == acc {
        GreedyFound(segs, parts, i, acc, hits);
      }
      if found.Some? {
        var h := found.value;
        var acc' := acc + [h];
        PartsOkSnoc(segs, parts, i, acc, h);
        MatchPartsSpec(segs, parts, i, p + 1, acc', hits);
        assert Cur(i, acc', p + 1) == h.next;
        if Greedy(segs, parts, i, hits) && hits[..p] == acc {
          assert hits[..p + 1] == hits[..p] + [hits[p]];
        }
        if Greedy(segs, parts, i, hits) && hits[..p + 1] == acc' {
          assert hits[..p] == hits[..p + 1][..p];
        }
      }
    }
  }

  /** A pattern matches at `i` exactly along the greedy chain of its parts,
      and the returned hits are that chain. */
  lemma MatchAtSpec(segs: seq<Segment>, parts: seq<seq<string>>, i: nat, hits: seq<Hit>)
    ensures MatchAt(segs, parts, i) == Some(hits) <==> Greedy(segs, parts, i, hits)
  {
    MatchPartsSpec(segs, parts, i, 0, [], hits);
  }

  // ---------------------------------------------------------------------
  // Covered segments

  /** Segment `k` lies in range `r`. */
  predicate InRange(r: Range, k: nat) {
    r.Span? && r.start <= k <= r.end
  }

  lemma {:induction false} RangesSetSpec(rs: seq<Range>, k: nat)
    ensures k in RangesSet(rs) <==> exists j :: 0 <= j < |rs| && InRange(rs[j], k)
  {
    if rs != [] {
      var n := |rs| - 1;
      RangesSetSpec(rs[..n], k);
      if k in RangesSet(rs[..n]) {
        var j :| 0 <= j < n && InRange(rs[..n][j], k);
        assert rs[j] == rs[..n][j];
      }
      if exists j :: 0 <= j < |rs| && InRange(rs[j], k) {
        var j :| 0 <= j < |rs| && InRange(rs[j], k);
        if j < n {
          assert rs[..n][j] == rs[j];
        }
      }
    }
  }

  /** The segments a pattern's match at `i` covers are those from the first
      to the last matched segment of each of its parts: the white space inside
      a part is covered, what lies between two parts is not. */
  lemma CoverAtSpec(segs: seq<Segment>, parts: seq<seq<string>>, i: nat, k: nat)
    ensures k in CoverAt(segs, parts, i) <==>
      exists hits: seq<Hit> :: Greedy(segs, parts, i, hits) && exists p :: 0 <= p < |hits| && InRange(hits[p].range, k)
  {
    match MatchAt(segs, parts, i)
    case None =>
      forall hits | Greedy(segs, parts, i, hits) ensures false {
        MatchAtSpec(segs, parts, i, hits);
      }
    case Some(hits) =>
      MatchAtSpec(segs, parts, i, hits);
      RangesSetSpec(Ranges(hits), k);
      forall hits' | Greedy(segs, parts, i, hits') ensures hits' == hits {
        MatchAtSpec(segs, parts, i, hits');
      }
  }

  /** A part's hit starts where it was tried; its range lies between there
      and the last segment, and is empty only for a part without words. */
  lemma HitBounds(segs: seq<Segment>, words: seq<string>, s: nat)
    requires HitAt(segs, words, s).Some?
    ensures var h := HitAt(segs, words, s).value;
      && h.at == s && s <= h.next
      && (h.range.Span? ==> s <= h.range.start <= h.range.end < |segs|)
      && (words != [] <==> h.range.Span?)
  {
    HitAtSpec(segs, words, s);
    NonSpaceFacts(segs, s);
    var ns := NonSpace(segs, s);
    var n := |words|;
    if n > 0 {
      assert ns[..n][0] == ns[0] && ns[..n][n - 1] == ns[n - 1];
      if n > 1 {
        assert ns[0] < ns[n - 1];
      }
    }
  }

  /** Every hit of a greedy chain lies at or after `i`, and every range it
      covers inside the text. */
  lemma GreedyBounds(segs: seq<Segment>, parts: seq<seq<string>>, i: nat, hits: seq<Hit>)
    requires Greedy(segs, parts, i, hits)
    ensures forall p :: 0 <= p < |hits| ==> HitAt(segs, parts[p], hits[p].at) == Some(hits[p])
    ensures forall p :: 0 <= p < |hits| && hits[p].range.Span? ==>
      i <= hits[p].range.start <= hits[p].range.end < |segs|
  {
    forall p | 0 <= p < |hits|
      ensures HitAt(segs, parts[p], hits[p].at) == Some(hits[p])
      ensures hits[p].range.Span? ==> i <= hits[p].range.start <= hits[p].range.end < |segs|
    {
      GreedyPartBounds(segs, parts, i, hits, p);
    }
  }

  /** One hit of a greedy chain lies at or after `i`, by induction on its
      position in the chain. */
  lemma {:induction false} GreedyPartBounds(segs: seq<Segment>, parts: seq<seq<string>>, i: nat, hits: seq<Hit>, p: nat)
    requires Greedy(segs, parts, i, hits) && p < |hits|
    ensures i <= hits[p].at <= hits[p].next && HitAt(segs, parts[p], hits[p].at) == Some(hits[p])
    ensures hits[p].range.Span? ==> i <= hits[p].range.start <= hits[p].range.end < |segs|
    decreases p
  {
    if p > 0 {
      GreedyPartBounds(segs, parts, i, hits, p - 1);
    }
    assert PartOk(segs, parts, i, hits, p);
    var cur := Cur(i, hits, p);
    FindPartSpec(segs, parts[p], WindowFrom(i, p, cur), WindowEnd(segs, i, p, cur));
    HitBounds(segs, parts[p], hits[p].at);
  }

  /** A match at `i` covers only segments from `i` to the end of the text. */
  lemma CoverBounds(segs: seq<Segment>, parts: seq<seq<string>>, i: nat, k: nat)
    requires k in CoverAt(segs, parts, i)
    ensures i <= k < |segs|
  {
    CoverAtSpec(segs, parts, i, k);
    var hits: seq<Hit> :| Greedy(segs, parts, i, hits) && exists p :: 0 <= p < |hits| && InRange(hits[p].range, k);
    GreedyBounds(segs, parts, i, hits);
  }

  /** A union of `f(0..n)` holds what one of them holds. */
  lemma {:induction false} UnionUpToSpec(f: nat -> set<nat>, n: nat, k: nat)
    ensures k in UnionUpTo(f, n) <==> exists i :: 0 <= i < n && k in f(i)
  {
    if n > 0 {
      UnionUpToSpec(f, n - 1, k);
    }
  }

  /** `AnyUpTo` is the bounded existential. */
  lemma {:induction false} AnyUpToSpec(f: nat -> bool, n: nat)
    ensures AnyUpTo(f, n) <==> exists i :: 0 <= i < n && f(i)
  {
    if n > 0 {
      AnyUpToSpec(f, n - 1);
    }
  }

  lemma PatternCoverSpec(segs: seq<Segment>, parts: seq<seq<string>>, n: nat, k: nat)
    ensures k in PatternCover(segs, parts, n) <==> exists i :: 0 <= i < n && k in CoverAt(segs, parts, i)
  {
    UnionUpToSpec(CoverFn(segs, parts), n, k);
    assert forall i :: CoverFn(segs, parts)(i) == CoverAt(segs, parts, i);
  }

  lemma PatternsCoverSpec(segs: seq<Segment>, pats: seq<string>, n: nat, k: nat)
    requires n <= |pats|
    ensures k in PatternsCover(segs, pats, n) <==> exists q :: 0 <= q < n && k in PatternOwnCover(segs, pats[q])
  {
    UnionUpToSpec(OwnCoverFn(segs, pats), n, k);
    assert forall q :: 0 <= q < n ==> OwnCoverFn(segs, pats)(q) == PatternOwnCover(segs, pats[q]);
  }

  /** An entry covers only segments of the text. */
  lemma EntryCoverBounds(segs: seq<Segment>, v: Entry, k: nat)
    requires k in EntryCover(segs, v)
    ensures k < |segs|
  {
    var pats := Patterns(v);
    PatternsCoverSpec(segs, pats, |pats|, k);
    var q :| 0 <= q < |pats| && k in PatternOwnCover(segs, pats[q]);
    var parts := PartWords(pats[q]);
    PatternCoverSpec(segs, parts, |segs|, k);
    var i :| 0 <= i < |segs| && k in CoverAt(segs, parts, i);
    CoverBounds(segs, parts, i, k);
  }

  // ---------------------------------------------------------------------
  // Matching and covering

  lemma {:induction false} AnyFromSpec(f: nat -> bool, i: nat, n: nat)
    ensures AnyFrom(f, i, n) <==> exists j :: i <= j < n && f(j)
    decreases n - i
  {
    if i < n {
      AnyFromSpec(f, i + 1, n);
      if j :| i <= j < n && f(j) {
        if j > i {
          assert i + 1 <= j < n && f(j);
        }
      }
    }
  }

  lemma AnyMatchFromSpec(segs: seq<Segment>, parts: seq<seq<string>>, i: nat)
    ensures AnyMatchFrom(segs, parts, i) <==> exists j :: i <= j < |segs| && MatchAt(segs, parts, j).Some?
  {
    AnyFromSpec(FoundFn(segs, parts), i, |segs|);
    assert forall j :: FoundFn(segs, parts)(j) == MatchAt(segs, parts, j).Some?;
  }

  /** A usable pattern's match always covers something: at least the
      segments of its first part. */
  lemma MatchCovers(segs: seq<Segment>, parts: seq<seq<string>>, i: nat)
    requires Usable(parts)
    ensures CoverAt(segs, parts, i) != {} <==> MatchAt(segs, parts, i).Some?
  {
    if MatchAt(segs, parts, i).Some? {
      var hits := MatchAt(segs, parts, i).value;
      MatchAtSpec(segs, parts, i, hits);
      GreedyBounds(segs, parts, i, hits);
      HitBounds(segs, parts[0], hits[0].at);
      var k := hits[0].range.start;
      assert InRange(hits[0].range, k);
      CoverAtSpec(segs, parts, i, k);
    }
  }

  lemma PatternMatchesCovers(segs: seq<Segment>, pattern: string)
    ensures PatternMatches(segs, pattern) <==> PatternOwnCover(segs, pattern) != {}
  {
    var parts := PartWords(pattern);
    if Usable(parts) {
      AnyMatchFromSpec(segs, parts, 0);
      if AnyMatchFrom(segs, parts, 0) {
        var j :| 0 <= j < |segs| && MatchAt(segs, parts, j).Some?;
        MatchCovers(segs, parts, j);
        var k :| k in CoverAt(segs, parts, j);
        PatternCoverSpec(segs, parts, |segs|, k);
      }
      if PatternCover(segs, parts, |segs|) != {} {
        var k :| k in PatternCover(segs, parts, |segs|);
        PatternCoverSpec(segs, parts, |segs|, k);
        var j :| 0 <= j < |segs| && k in CoverAt(segs, parts, j);
        MatchCovers(segs, parts, j);
      }
    }
  }

  /** An entry matches somewhere (what `matchedVocabIds` records) exactly
      when it covers some segment, whether or not it then owns any. */
  lemma EntryMatchesCovers(segs: seq<Segment>, v: Entry)
    ensures EntryMatches(segs, v) <==> EntryCover(segs, v) != {}
  {
    var pats := Patterns(v);
    AnyUpToSpec(MatchFn(segs, pats), |pats|);
    if EntryMatches(segs, v) {
      var q :| 0 <= q < |pats| && MatchFn(segs, pats)(q);
      PatternMatchesCovers(segs, pats[q]);
      var k :| k in PatternOwnCover(segs, pats[q]);
      PatternsCoverSpec(segs, pats, |pats|, k);
    }
    if EntryCover(segs, v) != {} {
      var k :| k in EntryCover(segs, v);
      PatternsCoverSpec(segs, pats, |pats|, k);
      var q :| 0 <= q < |pats| && k in PatternOwnCover(segs, pats[q]);
      PatternMatchesCovers(segs, pats[q]);
      assert MatchFn(segs, pats)(q);
    }
  }

  // ---------------------------------------------------------------------
  // Ownership

  /** `j` is the first entry covering `k`, entry `j` covering `f(j)`. */
  ghost predicate FirstCover(f: nat -> set<nat>, j: nat, k: nat) {
    k in f(j) && forall j' :: 0 <= j' < j ==> k !in f(j')
  }

  /** After the first `n` entries a segment is in the map exactly when one of
      them covers it, and it belongs to the first of those. */
  lemma {:induction false} ClaimAllOwner(f: nat -> set<nat>, sorted: seq<Entry>, n: nat, k: nat)
    requires n <= |sorted|
    ensures k in ClaimAll(f, sorted, n) <==> exists j :: 0 <= j < n && k in f(j)
    ensures k in ClaimAll(f, sorted, n) ==>
      exists j :: 0 <= j < n && FirstCover(f, j, k) && ClaimAll(f, sorted, n)[k] == sorted[j]
  {
    if n > 0 {
      ClaimAllOwner(f, sorted, n - 1, k);
      if k !in ClaimAll(f, sorted, n - 1) && k in f(n - 1) {
        assert FirstCover(f, n - 1, k);
      }
    }
  }

  /** Once claimed, a segment keeps its owner through every later entry. */
  lemma {:induction false} ClaimAllStable(f: nat -> set<nat>, sorted: seq<Entry>, n: nat, n2: nat, k: nat)
    requires n <= n2 <= |sorted| && k in ClaimAll(f, sorted, n)
    ensures k in ClaimAll(f, sorted, n2) && ClaimAll(f, sorted, n2)[k] == ClaimAll(f, sorted, n)[k]
    decreases n2
  {
    if n2 > n {
      ClaimAllStable(f, sorted, n, n2 - 1, k);
    }
  }

  /** Claiming in a descending order of a permutation of `vocab`, entry `v`
      covering `g(v)`: a segment is claimed exactly when some entry covers
      it, and its owner is a covering entry of greatest word length. */
  lemma ClaimAllSpec(f: nat -> set<nat>, g: Entry -> set<nat>, sorted: seq<Entry>, vocab: seq<Entry>, k: nat)
    requires Descending(sorted) && multiset(sorted) == multiset(vocab)
    requires forall j :: 0 <= j < |sorted| ==> f(j) == g(sorted[j])
    ensures var m := ClaimAll(f, sorted, |sorted|);
      && (k in m <==> exists v :: v in vocab && k in g(v))
      && (k in m ==> m[k] in vocab && k in g(m[k]))
      && (k in m ==> forall v :: v in vocab && k in g(v) ==> |v.word| <= |m[k].word|)
  {
    SameElements(sorted, vocab);
    ClaimAllCovered(f, g, sorted, vocab, k);
    if k in ClaimAll(f, sorted, |sorted|) {
      ClaimAllLongest(f, g, sorted, vocab, k);
    }
  }

  lemma SameElements(a: seq<Entry>, b: seq<Entry>)
    requires multiset(a) == multiset(b)
    ensures forall v :: v in a <==> v in b
  {
    forall v ensures v in a <==> v in b {
      assert v in a <==> v in multiset(a);
      assert v in b <==> v in multiset(b);
    }
  }

  lemma ClaimAllCovered(f: nat -> set<nat>, g: Entry -> set<nat>, sorted: seq<Entry>, vocab: seq<Entry>, k: nat)
    requires forall v :: v in vocab <==> v in sorted
    requires forall j :: 0 <= j < |sorted| ==> f(j) == g(sorted[j])
    ensures var m := ClaimAll(f, sorted, |sorted|);
      && (k in m <==> exists v :: v in vocab && k in g(v))
      && (k in m ==> m[k] in vocab && k in g(m[k]))
  {
    ClaimAllOwner(f, sorted, |sorted|, k);
    if exists v :: v in vocab && k in g(v) {
      var v :| v in vocab && k in g(v);
      var j :| 0 <= j < |sorted| && sorted[j] == v;
      assert k in f(j);
    }
  }

  lemma ClaimAllLongest(f: nat -> set<nat>, g: Entry -> set<nat>, sorted: seq<Entry>, vocab: seq<Entry>, k: nat)
    requires Descending(sorted) && forall v :: v in vocab <==> v in sorted
    requires forall j :: 0 <= j < |sorted| ==> f(j) == g(sorted[j])
    requires k in ClaimAll(f, sorted, |sorted|)
    ensures forall v :: v in vocab && k in g(v) ==> |v.word| <= |ClaimAll(f, sorted, |sorted|)[k].word|
  {
    ClaimAllOwner(f, sorted, |sorted|, k);
    var m := ClaimAll(f, sorted, |sorted|);
    var j :| 0 <= j < |sorted| && FirstCover(f, j, k) && m[k] == sorted[j];
    forall v | v in vocab && k in g(v) ensures |v.word| <= |m[k].word| {
      var j2 :| 0 <= j2 < |sorted| && sorted[j2] == v;
      assert k in f(j2);
      assert j <= j2;
    }
  }

  function EntryCoverOf(segs: seq<Segment>): Entry -> set<nat> {
    v => EntryCover(segs, v)
  }

  /** The preview map: a segment is highlighted exactly when some entry
      covers it; its owner is one of those entries, with a word at least as
      long as that of every other entry covering it; and only segments of
      the text are keys. */
  lemma HighlightMapSpec(segs: seq<Segment>, vocab: seq<Entry>, k: nat)
    ensures k in HighlightMap(segs, vocab) <==> exists v :: v in vocab && k in EntryCover(segs, v)
    ensures k in HighlightMap(segs, vocab) ==>
      var o := HighlightMap(segs, vocab)[k];
      && o in vocab && k in EntryCover(segs, o) && k < |segs|
      && forall v :: v in vocab && k in EntryCover(segs, v) ==> |v.word| <= |o.word|
  {
    if vocab != [] {
      var sorted := SortByLength(vocab);
      SortByLengthDescending(vocab);
      var g := EntryCoverOf(segs);
      ClaimAllSpec(EntryCoverFn(segs, sorted), g, sorted, vocab, k);
      assert forall v :: g(v) == EntryCover(segs, v);
      if k in HighlightMap(segs, vocab) {
        EntryCoverBounds(segs, HighlightMap(segs, vocab)[k], k);
      }
    }
  }

  /** Once the entries before `n` have claimed a segment, later entries
      never change its owner. */
  lemma ClaimsStable(segs: seq<Segment>, sorted: seq<Entry>, n: nat, n2: nat, k: nat)
    requires n <= n2 <= |sorted| && k in Claims(segs, sorted, n)
    ensures k in Claims(segs, sorted, n2) && Claims(segs, sorted, n2)[k] == Claims(segs, sorted, n)[k]
  {
    ClaimAllStable(EntryCoverFn(segs, sorted), sorted, n, n2, k);
  }
}
