/** The sentence splitter of the example search: a text is cut after each
    sentence terminator (and the white space that follows it), the pieces are
    trimmed, and fragments of five characters or fewer are dropped. Also the
    escaping that turns an entry's word and variants into literal
    alternatives of the search expression. */
module Sentences {
  import opened Strs
  import opened Vocab

  // ---------------------------------------------------------------------
  // splitIntoSentences
  // ---------------------------------------------------------------------

  /** The terminators `[.!?。！？]`. */
  predicate IsTerminator(c: char) {
    c == '.' || c == '!' || c == '?' || c == '。' || c == '！' || c == '？'
  }

  predicate NoTerminator(s: string) {
    forall k :: 0 <= k < |s| ==> !IsTerminator(s[k])
  }

  /** The index of the first terminator of `s`, or `|s|` when there is none. */
  function FirstTerminator(s: string): (t: nat)
    ensures t <= |s|
    ensures NoTerminator(s[..t])
    ensures t < |s| ==> IsTerminator(s[t])
  {
    if s == [] || IsTerminator(s[0]) then 0
    else
      var t := FirstTerminator(s[1..]);
      assert s[..t + 1] == [s[0]] + s[1..][..t];
      t + 1
  }

  /** The end of the separator that starts at the first terminator `t`: the
      terminator and the white space run after it (`[.!?。！？]\s*`). */
  function SeparatorEnd(s: string, t: nat): (n: nat)
    requires t < |s|
    ensures t < n <= |s| && AllSpace(s[t + 1..n])
  {
    var m := SpaceRun(s[t + 1..]);
    assert s[t + 1..t + 1 + m] == s[t + 1..][..m];
    t + 1 + m
  }

  /** `text.split(/([.!?。！？]\s*)/g)`: the text before each separator,
      followed by the separator itself (the captured group), and at the end
      the text after the last separator, possibly empty. */
  function SplitKeep(s: string): (r: seq<string>)
    ensures |r| % 2 == 1
    decreases |s|
  {
    var t := FirstTerminator(s);
    if t == |s| then [s]
    else
      var n := SeparatorEnd(s, t);
      [s[..t], s[t..n]] + SplitKeep(s[n..])
  }

  /** The callback of the `reduce` below: an even-indexed piece starts a new
      element, an odd-indexed one is appended to the last element. With no
      element yet, `acc[acc.length - 1] += cur` writes to the property `-1`,
      not to an element, so the list is unchanged. */
  function Step(acc: seq<string>, cur: string, i: nat): seq<string> {
    if i % 2 == 0 then acc + [cur]
    else if acc == [] then acc
    else acc[..|acc| - 1] + [acc[|acc| - 1] + cur]
  }

  /** `.reduce(Step, [])` as a left fold. */
  function Regroup(parts: seq<string>): (r: seq<string>)
    ensures |r| == (|parts| + 1) / 2
    decreases |parts|
  {
    if parts == [] then []
    else Step(Regroup(parts[..|parts| - 1]), parts[|parts| - 1], |parts| - 1)
  }

  /** The raw sentences by their own definition: each runs up to and
      including its terminator and the white space after it; the last one
      is what follows the last terminator. */
  function Pieces(s: string): (r: seq<string>)
    ensures |r| >= 1
    decreases |s|
  {
    var t := FirstTerminator(s);
    if t == |s| then [s]
    else
      var n := SeparatorEnd(s, t);
      [s[..n]] + Pieces(s[n..])
  }

  /** A piece that ends a sentence: its first terminator is followed by
      nothing but white space. */
  predicate Terminated(p: string) {
    var t := FirstTerminator(p);
    t < |p| && AllSpace(p[t + 1..])
  }

  /** `s => s.length > 5` */
  function LongEnough(s: string): bool {
    |s| > 5
  }

  /** `splitIntoSentences`: nothing for an empty text; otherwise the regrouped
      pieces of the split, trimmed, without those of five characters or
      fewer. */
  function SplitIntoSentences(text: string): seq<string> {
    if text == [] then []
    else Filter(Map(Regroup(SplitKeep(text)), Trim), LongEnough)
  }

  /** Regrouping a list of even length and then the rest is regrouping the
      whole list. */
  lemma {:induction false} RegroupAppend(a: seq<string>, b: seq<string>)
    requires |a| % 2 == 0
    ensures Regroup(a + b) == Regroup(a) + Regroup(b)
    decreases |b|
  {
    if b == [] {
      assert a + b == a;
    } else {
      var b' := b[..|b| - 1];
      var x := b[|b| - 1];
      assert b == b' + [x];
      assert a + b == (a + b') + [x];
      RegroupSnoc(a + b', x);
      RegroupSnoc(b', x);
      RegroupAppend(a, b');
      StepAppend(Regroup(a), Regroup(b'), x, |a|, |b'|);
    }
  }

  /** Regrouping one more piece is one more step. */
  lemma RegroupSnoc(p: seq<string>, x: string)
    ensures Regroup(p + [x]) == Step(Regroup(p), x, |p|)
  {
    assert (p + [x])[..|p|] == p;
  }

  /** A step on a list after an even-length prefix touches only the part
      after the prefix. */
  lemma StepAppend(ra: seq<string>, rb: seq<string>, x: string, i: nat, j: nat)
    requires i % 2 == 0 && (j % 2 == 1 ==> rb != [])
    ensures Step(ra + rb, x, i + j) == ra + Step(rb, x, j)
  {
    if j % 2 == 1 {
      assert (ra + rb)[..|ra + rb| - 1] == ra + rb[..|rb| - 1];
    }
  }

  /** The split and the reduce together give the raw sentences. */
  lemma {:induction false} RegroupSplit(s: string)
    ensures Regroup(SplitKeep(s)) == Pieces(s)
    decreases |s|
  {
    var t := FirstTerminator(s);
    if t == |s| {
      assert Regroup([s]) == Regroup([]) + [s];
    } else {
      var n := SeparatorEnd(s, t);
      var pair := [s[..t], s[t..n]];
      RegroupAppend(pair, SplitKeep(s[n..]));
      assert Regroup(pair) == [s[..t] + s[t..n]] by {
        assert pair[..1] == [s[..t]];
        assert Regroup(pair[..1]) == [s[..t]] by {
          assert pair[..1][..0] == [];
        }
      }
      assert s[..t] + s[t..n] == s[..n];
      RegroupSplit(s[n..]);
    }
  }

  /** The sentences are the raw sentences, trimmed, that are long enough. */
  lemma SentencesOfPieces(text: string)
    requires text != []
    ensures SplitIntoSentences(text) == Filter(Map(Pieces(text), Trim), LongEnough)
  {
    RegroupSplit(text);
  }

  /** The raw sentences put back together are the text. */
  lemma {:induction false} PiecesConcat(s: string)
    ensures Concat(Pieces(s)) == s
    decreases |s|
  {
    var t := FirstTerminator(s);
    if t == |s| {
      assert Concat([s]) == s + Concat([]);
    } else {
      var n := SeparatorEnd(s, t);
      PiecesConcat(s[n..]);
      assert Concat([s[..n]] + Pieces(s[n..])) == s[..n] + Concat(Pieces(s[n..]));
      assert s[..n] + s[n..] == s;
    }
  }

  /** Every raw sentence but the last ends with a terminator and white space;
      the last one has no terminator at all. */
  lemma {:induction false} PiecesShape(s: string)
    ensures var ps := Pieces(s);
      && (forall k :: 0 <= k < |ps| - 1 ==> Terminated(ps[k]))
      && NoTerminator(ps[|ps| - 1])
    decreases |s|
  {
    var t := FirstTerminator(s);
    if t < |s| {
      var n := SeparatorEnd(s, t);
      var p := s[..n];
      assert p[..t] == s[..t];
      assert FirstTerminator(p) == t by {
        FirstTerminatorAt(p, t);
      }
      assert p[t + 1..] == s[t + 1..n];
      PiecesShape(s[n..]);
      var ps := Pieces(s);
      assert ps == [p] + Pieces(s[n..]);
      forall k | 0 < k < |ps| - 1 ensures Terminated(ps[k]) {
        assert ps[k] == Pieces(s[n..])[k - 1];
      }
    }
  }

  /** The first terminator is where the terminators start. */
  lemma {:induction false} FirstTerminatorAt(s: string, t: nat)
    requires t < |s| && IsTerminator(s[t]) && NoTerminator(s[..t])
    ensures FirstTerminator(s) == t
  {
    if t > 0 {
      assert !IsTerminator(s[0]) by {
        assert s[..t][0] == s[0];
      }
      assert s[1..][..t - 1] == s[..t][1..];
      FirstTerminatorAt(s[1..], t - 1);
    }
  }

  /** What `splitIntoSentences` returns: for a non-empty text, exactly the raw
      sentences, trimmed, that are longer than five characters, in text
      order; each sentence has no white space at either end. */
  lemma SentencesSpec(text: string)
    ensures text != [] ==> SplitIntoSentences(text) == Filter(Map(Pieces(text), Trim), LongEnough)
    ensures forall x :: x in SplitIntoSentences(text) <==>
      text != [] && (exists p :: p in Pieces(text) && x == Trim(p)) && |x| > 5
    ensures forall x :: x in SplitIntoSentences(text) ==> !IsSpace(x[0]) && !IsSpace(x[|x| - 1])
  {
    if text != [] {
      RegroupSplit(text);
      var trimmed := Map(Pieces(text), Trim);
      forall x ensures x in trimmed <==> exists p :: p in Pieces(text) && x == Trim(p) {
        MapMember(Pieces(text), Trim, x);
      }
    }
  }

  /** A sentence that ends at its only terminator. */
  predicate OneSentence(a: string) {
    && a != [] && !IsSpace(a[0]) && |a| > 5
    && NoTerminator(a[..|a| - 1]) && IsTerminator(a[|a| - 1])
  }

  /** A terminated sentence is a piece of its own. */
  lemma OneSentencePieces(b: string)
    requires OneSentence(b)
    ensures Pieces(b) == [b, []]
  {
    var t := |b| - 1;
    FirstTerminatorAt(b, t);
    assert SeparatorEnd(b, t) == |b|;
    assert b[..|b|] == b && b[|b|..] == [];
    assert Pieces([]) == [[]];
  }

  /** Two sentences, each ending at its only terminator, separated by white
      space, are two raw sentences, the first with the white space. */
  lemma TwoPieces(a: string, gap: string, b: string)
    requires OneSentence(a) && OneSentence(b) && AllSpace(gap)
    ensures Pieces(a + gap + b) == [a + gap, b, []]
  {
    var text := a + gap + b;
    var t := |a| - 1;
    var n := |a| + |gap|;
    assert FirstTerminator(text) == t by {
      assert text[..t] == a[..t] && text[t] == a[t];
      FirstTerminatorAt(text, t);
    }
    assert SeparatorEnd(text, t) == n by {
      assert text[t + 1..] == gap + b;
      SpaceRunAppend(gap, b);
    }
    assert text[..n] == a + gap && text[n..] == b;
    OneSentencePieces(b);
  }

  /** Trimming a sentence and the white space after it leaves the
      sentence. */
  lemma TrimSentence(a: string, gap: string)
    requires OneSentence(a) && AllSpace(gap)
    ensures Trim(a + gap) == a
  {
    assert !IsSpace(a[|a| - 1]);
    TrimEndSpace(a, gap);
    assert (a + gap)[0] == a[0];
  }

  /** Two sentences, each ending at its only terminator, separated by white
      space, are split into exactly those two sentences. */
  lemma TwoSentences(a: string, gap: string, b: string)
    requires OneSentence(a) && OneSentence(b) && AllSpace(gap)
    ensures SplitIntoSentences(a + gap + b) == [a, b]
  {
    SentencesOfPieces(a + gap + b);
    TwoPieces(a, gap, b);
    TrimTwo(a, gap, b);
    FilterTwo(a, b);
  }

  lemma TrimTwo(a: string, gap: string, b: string)
    requires OneSentence(a) && OneSentence(b) && AllSpace(gap)
    ensures Map([a + gap, b, []], Trim) == [a, b, []]
  {
    var z: string := [];
    MapThree(a + gap, b, z, Trim);
    TrimSentence(a, gap);
    assert Trim(b) == b by {
      TrimSentence(b, z);
      assert b + z == b;
    }
    assert Trim(z) == z;
  }

  lemma FilterTwo(a: string, b: string)
    requires |a| > 5 && |b| > 5
    ensures Filter([a, b, []], LongEnough) == [a, b]
  {
    var s := [a, b, []];
    var z: string := [];
    assert s[1..][1..] == [z] && [z][1..] == [];
    assert Filter([z], LongEnough) == [];
    assert Filter(s[1..], LongEnough) == [b];
  }

  // ---------------------------------------------------------------------
  // The search patterns
  // ---------------------------------------------------------------------

  /** The characters `p.replace(/[.*+?^${}()|[\]\\]/g, '\\$&')` escapes. */
  predicate IsMeta(c: char) {
    c in ".*+?^${}()|[]\\"
  }

  /** `p.replace(/[.*+?^${}()|[\]\\]/g, '\\$&')`: a backslash before every
      metacharacter. */
  function Escape(p: string): (r: string)
    ensures |r| >= |p|
  {
    if p == [] then []
    else (if IsMeta(p[0]) then ['\\', p[0]] else [p[0]]) + Escape(p[1..])
  }

  /** No metacharacter of `e` stands bare: each one follows a backslash, and a
      backslash is only ever followed by a metacharacter. */
  predicate Quoted(e: string)
    decreases |e|
  {
    || e == []
    || (e[0] == '\\' && |e| >= 2 && IsMeta(e[1]) && Quoted(e[2..]))
    || (!IsMeta(e[0]) && Quoted(e[1..]))
  }

  /** The text a quoted pattern matches: `\c` stands for `c`, any other
      character for itself. */
  function Literal(e: string): (r: string)
    ensures |r| <= |e|
    decreases |e|
  {
    if e == [] then []
    else if e[0] == '\\' && |e| >= 2 then [e[1]] + Literal(e[2..])
    else [e[0]] + Literal(e[1..])
  }

  /** Escaping leaves no bare metacharacter, and the escaped pattern stands
      for exactly the original text. */
  lemma {:induction false} EscapeLiteral(p: string)
    ensures Quoted(Escape(p))
    ensures Literal(Escape(p)) == p
  {
    if p != [] {
      EscapeLiteral(p[1..]);
      var e := Escape(p);
      if IsMeta(p[0]) {
        assert e[2..] == Escape(p[1..]);
      } else {
        assert e[1..] == Escape(p[1..]);
      }
    }
  }

  /** `[word, ...(matchPattern?.split(/[,，]/).map(p => p.trim()) || [])]
      .filter(Boolean).map(escape)` */
  function SearchPatterns(word: string, matchPattern: Option<string>): seq<string> {
    Map(Candidates(word, matchPattern), Escape)
  }

  /** The alternatives of `\b(p1|p2|…)\b` as the expression reads them: the
      literal texts of the patterns; with no pattern the group is `()`, which
      matches the empty text. */
  function Alternatives(word: string, matchPattern: Option<string>): seq<string> {
    var ps := SearchPatterns(word, matchPattern);
    if ps == [] then [""] else Map(ps, Literal)
  }

  /** The search looks for the entry's word and each non-blank trimmed
      variant, literally: every search pattern is quoted, and the
      alternatives are the candidates themselves. */
  lemma AlternativesSpec(word: string, matchPattern: Option<string>)
    ensures forall e :: e in SearchPatterns(word, matchPattern) ==> Quoted(e)
    ensures var cs := Candidates(word, matchPattern);
      Alternatives(word, matchPattern) == if cs == [] then [""] else cs
  {
    var cs := Candidates(word, matchPattern);
    var ps := SearchPatterns(word, matchPattern);
    forall k | 0 <= k < |cs| ensures Quoted(ps[k]) && Literal(ps[k]) == cs[k] {
      EscapeLiteral(cs[k]);
    }
  }
}
