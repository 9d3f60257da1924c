/** The paragraph tokenizer shared by the editor preview (`HighlightedText`),
    the editor's `matchedVocabIds` and the reader's `groups`: the text is split
    into maximal white-space runs, single punctuation marks and the runs in
    between, and a word immediately followed by one mark is merged with it.
    Every segment remembers its position in the raw split. */
module Tokenizer {
  import opened Strs

  /** The marks `[.,!?;:()]` that the split regex isolates one by one. */
  predicate IsPunctChar(c: char) {
    c == '.' || c == ',' || c == '!' || c == '?' || c == ';' || c == ':' || c == '(' || c == ')'
  }

  predicate IsWordChar(c: char) {
    !IsSpace(c) && !IsPunctChar(c)
  }

  /** `/^\s+$/.test(p)` */
  predicate IsSpacePiece(p: string) {
    p != [] && AllSpace(p)
  }

  /** `/^[.,!?;:()]$/.test(p)` */
  predicate IsPunctPiece(p: string) {
    |p| == 1 && IsPunctChar(p[0])
  }

  /** A piece between separators: neither white space nor a mark. */
  predicate IsWordPiece(p: string) {
    p != [] && forall k :: 0 <= k < |p| ==> IsWordChar(p[k])
  }

  /** Length of the maximal prefix of `s` made of word characters. */
  function WordCharRun(s: string): (n: nat)
    ensures n <= |s|
    ensures forall k :: 0 <= k < n ==> IsWordChar(s[k])
    ensures n < |s| ==> !IsWordChar(s[n])
  {
    if s != [] && IsWordChar(s[0]) then 1 + WordCharRun(s[1..]) else 0
  }

  /** `text.split(/(\s+|[.,!?;:()])/g).filter(Boolean)`: the separators are
      kept (the regex captures them) and the empty strings between adjacent
      separators are dropped. */
  function RawSplit(s: string): (r: seq<string>)
    ensures forall k :: 0 <= k < |r| ==> IsSpacePiece(r[k]) || IsPunctPiece(r[k]) || IsWordPiece(r[k])
    decreases |s|
  {
    if s == [] then []
    else if IsSpace(s[0]) then
      var n := SpaceRun(s);
      [s[..n]] + RawSplit(s[n..])
    else if IsPunctChar(s[0]) then
      [s[..1]] + RawSplit(s[1..])
    else
      var n := WordCharRun(s);
      [s[..n]] + RawSplit(s[n..])
  }

  /** The raw split loses nothing: its pieces concatenate back to the text. */
  lemma {:induction false} RawSplitConcat(s: string)
    ensures Concat(RawSplit(s)) == s
    decreases |s|
  {
    if s == [] {
    } else if IsSpace(s[0]) {
      var n := SpaceRun(s);
      RawSplitConcat(s[n..]);
      assert s == s[..n] + s[n..];
    } else if IsPunctChar(s[0]) {
      RawSplitConcat(s[1..]);
      assert s == s[..1] + s[1..];
    } else {
      var n := WordCharRun(s);
      RawSplitConcat(s[n..]);
      assert s == s[..n] + s[n..];
    }
  }

  /** The first piece of a non-empty text starts with its first character. */
  lemma RawSplitHead(s: string)
    requires s != []
    ensures RawSplit(s) != [] && RawSplit(s)[0] != [] && RawSplit(s)[0][0] == s[0]
  {
  }

  /** The runs are maximal: two white-space pieces, or two word pieces, are
      never adjacent. */
  lemma {:induction false} RawSplitMaximal(s: string)
    ensures var r := RawSplit(s);
      forall k :: 0 <= k < |r| - 1 ==>
        !(IsSpacePiece(r[k]) && IsSpacePiece(r[k + 1])) && !(IsWordPiece(r[k]) && IsWordPiece(r[k + 1]))
    decreases |s|
  {
    if s != [] {
      var n := if IsSpace(s[0]) then SpaceRun(s) else if IsPunctChar(s[0]) then 1 else WordCharRun(s);
      var rest := RawSplit(s[n..]);
      var r := RawSplit(s);
      assert r == [s[..n]] + rest;
      RawSplitMaximal(s[n..]);
      assert s[..n][0] == s[0];
      if rest != [] {
        RawSplitHead(s[n..]);
        assert rest[0][0] == s[n];
        assert r[1] == rest[0];
      }
      forall k | 1 <= k < |r| - 1
        ensures !(IsSpacePiece(r[k]) && IsSpacePiece(r[k + 1])) && !(IsWordPiece(r[k]) && IsWordPiece(r[k + 1]))
      {
        assert r[k] == rest[k - 1] && r[k + 1] == rest[k];
      }
    }
  }

  /** One entry of the tokenizer's `result`; `index` is the position of the
      segment's (first) piece in the raw split. */
  datatype Segment =
    | Space(content: string, index: nat)
    | Punct(content: string, index: nat)
    | Word(content: string, index: nat)
    | WordWithPunct(word: string, punct: string, index: nat)
  {
    /** What is rendered for the segment: `content || (word + punct)`. */
    function Text(): string {
      if WordWithPunct? then word + punct else content
    }

    /** What the matchers compare: `word || content`. */
    function Key(): string {
      if WordWithPunct? then word else content
    }

    /** How many raw pieces the segment consumed. */
    function Width(): nat {
      if WordWithPunct? then 2 else 1
    }
  }

  /** The rendered text of a segment list. */
  function Render(segs: seq<Segment>): string {
    if segs == [] then [] else segs[0].Text() + Render(segs[1..])
  }

  /** The loop's merge condition at raw position `i`: the current piece is
      neither white space nor a mark and the next one exists and is a mark. */
  predicate Mergeable(raw: seq<string>, i: nat) {
    i + 1 < |raw| && !IsSpacePiece(raw[i]) && !IsPunctPiece(raw[i]) && raw[i + 1] != [] && IsPunctPiece(raw[i + 1])
  }

  /** The unmerged segment for a raw piece. */
  function Classify(p: string, i: nat): Segment {
    if IsSpacePiece(p) then Space(p, i) else if IsPunctPiece(p) then Punct(p, i) else Word(p, i)
  }

  /** The segments the tokenizer loop emits from raw position `i` on. */
  function Merge(raw: seq<string>, i: nat): seq<Segment>
    decreases |raw| - i
  {
    if i >= |raw| then []
    else if Mergeable(raw, i) then [WordWithPunct(raw[i], raw[i + 1], i)] + Merge(raw, i + 2)
    else [Classify(raw[i], i)] + Merge(raw, i + 1)
  }

  /** The segments of a paragraph text (`if (!text) return []` first). */
  function Segments(text: string): seq<Segment> {
    if text == [] then [] else Merge(RawSplit(text), 0)
  }

  /** The tokenizer loop of `HighlightedText` (and of `matchedVocabIds` and the
      reader's `groups`): walk the raw split, push one segment per piece, and
      when a word is followed by a mark push them merged and skip the mark. */
  method Tokenize(text: string) returns (segs: seq<Segment>)
    ensures segs == Segments(text)
    ensures Render(segs) == text
  {
    if text == [] {
      return [];
    }
    var raw := RawSplit(text);
    segs := [];
    var i := 0;
    while i < |raw|
      invariant i <= |raw|
      invariant segs + Merge(raw, i) == Merge(raw, 0)
      decreases |raw| - i
    {
      var current := raw[i];
      var next := if i + 1 < |raw| then raw[i + 1] else [];
      if !IsSpacePiece(current) && !IsPunctPiece(current) && next != [] && IsPunctPiece(next) {
        var seg := WordWithPunct(current, next, i);
        MergeStep(raw, i, segs, seg, i + 2);
        segs := segs + [seg];
        i := i + 2;
      } else {
        var seg := if IsSpacePiece(current) then Space(current, i)
                   else if IsPunctPiece(current) then Punct(current, i)
                   else Word(current, i);
        MergeStep(raw, i, segs, seg, i + 1);
        segs := segs + [seg];
        i := i + 1;
      }
    }
    SegmentsRoundTrip(text);
  }

  /** One iteration of the tokenizer loop extends the emitted prefix by the
      segment `Merge` puts first. */
  lemma MergeStep(raw: seq<string>, i: nat, segs: seq<Segment>, seg: Segment, j: nat)
    requires i < |raw|
    requires Merge(raw, i) == [seg] + Merge(raw, j)
    ensures (segs + [seg]) + Merge(raw, j) == segs + Merge(raw, i)
  {
  }

  /** Rendering the merged segments gives back the raw pieces they came from. */
  lemma {:induction false} MergeRender(raw: seq<string>, i: nat)
    requires i <= |raw|
    ensures Render(Merge(raw, i)) == Concat(raw[i..])
    decreases |raw| - i
  {
    if i < |raw| {
      var m := Merge(raw, i);
      assert raw[i..][1..] == raw[i + 1..];
      if Mergeable(raw, i) {
        MergeRender(raw, i + 2);
        assert m[1..] == Merge(raw, i + 2);
        assert raw[i + 1..][1..] == raw[i + 2..];
        assert Concat(raw[i..]) == raw[i] + (raw[i + 1] + Concat(raw[i + 2..]));
      } else {
        MergeRender(raw, i + 1);
        assert m[1..] == Merge(raw, i + 1);
      }
    }
  }

  /** Round trip: concatenating what every segment renders reproduces the
      paragraph text exactly; the empty text has no segments. */
  lemma SegmentsRoundTrip(text: string)
    ensures Render(Segments(text)) == text
    ensures text == [] <==> Segments(text) == []
  {
    if text != [] {
      var raw := RawSplit(text);
      RawSplitConcat(text);
      MergeRender(raw, 0);
      assert raw[0..] == raw;
    }
  }

  /** What every segment says about the raw split it came from: its index
      is the raw position of its piece, a merge joins a non-space, non-mark
      piece with exactly one following mark, and a piece left unmerged was not
      mergeable. */
  predicate Fits(raw: seq<string>, seg: Segment) {
    && seg.index + seg.Width() <= |raw|
    && raw[seg.index] == seg.Key()
    && (seg.WordWithPunct? ==>
          raw[seg.index + 1] == seg.punct && IsPunctPiece(seg.punct)
          && !IsSpacePiece(seg.word) && !IsPunctPiece(seg.word))
    && (seg.Space? ==> IsSpacePiece(seg.content))
    && (seg.Punct? ==> IsPunctPiece(seg.content))
    && (seg.Word? ==> !IsSpacePiece(seg.content) && !IsPunctPiece(seg.content) && !Mergeable(raw, seg.index))
  }

  /** Every segment emitted from raw position `i` on fits the raw split and
      lies at or after `i`. */
  lemma {:induction false} MergeFits(raw: seq<string>, i: nat)
    ensures forall k :: 0 <= k < |Merge(raw, i)| ==> i <= Merge(raw, i)[k].index && Fits(raw, Merge(raw, i)[k])
    decreases |raw| - i
  {
    if i < |raw| {
      var segs := Merge(raw, i);
      var j := if Mergeable(raw, i) then i + 2 else i + 1;
      MergeFits(raw, j);
      assert segs[1..] == Merge(raw, j);
      forall k | 1 <= k < |segs| ensures i <= segs[k].index && Fits(raw, segs[k]) {
        assert segs[k] == Merge(raw, j)[k - 1];
      }
    }
  }

  /** The merged list from raw position `i` on starts at `i`, consecutive
      segments are `Width()` apart (no raw piece is skipped or repeated) and
      the last one ends at the end of the raw split. */
  lemma {:induction false} MergeLinks(raw: seq<string>, i: nat)
    requires i <= |raw|
    ensures var segs := Merge(raw, i);
      && (i < |raw| ==> segs != [] && segs[0].index == i)
      && (forall k :: 0 <= k < |segs| - 1 ==> segs[k + 1].index == segs[k].index + segs[k].Width())
      && (segs != [] ==> segs[|segs| - 1].index + segs[|segs| - 1].Width() == |raw|)
    decreases |raw| - i
  {
    if i < |raw| {
      var segs := Merge(raw, i);
      var j := if Mergeable(raw, i) then i + 2 else i + 1;
      MergeLinks(raw, j);
      var rest := Merge(raw, j);
      assert segs == [segs[0]] + rest;
      forall k | 1 <= k < |segs| - 1 ensures segs[k + 1].index == segs[k].index + segs[k].Width() {
        assert segs[k] == rest[k - 1] && segs[k + 1] == rest[k];
      }
    }
  }

  /** The merge rule on real text: a merged segment is a word run followed by
      one mark; a word run is left alone only when no mark follows it; white
      space and marks are never merged into anything. Indices strictly
      increase. */
  lemma SegmentsShape(text: string)
    ensures var segs := Segments(text); var raw := RawSplit(text);
      && (forall k :: 0 <= k < |segs| ==>
            && segs[k].index < |raw| && raw[segs[k].index] == segs[k].Key()
            && (segs[k].WordWithPunct? ==> IsWordPiece(segs[k].word) && IsPunctPiece(segs[k].punct))
            && (segs[k].Word? ==> IsWordPiece(segs[k].content)
                                  && (segs[k].index + 1 < |raw| ==> !IsPunctPiece(raw[segs[k].index + 1])))
            && (segs[k].Space? ==> IsSpacePiece(segs[k].content))
            && (segs[k].Punct? ==> IsPunctPiece(segs[k].content)))
      && (forall k, j :: 0 <= k < j < |segs| ==> segs[k].index < segs[j].index)
  {
    var segs := Segments(text);
    var raw := RawSplit(text);
    if text != [] {
      MergeFits(raw, 0);
      MergeLinks(raw, 0);
      assert segs == Merge(raw, 0);
      forall k, j | 0 <= k < j < |segs| ensures segs[k].index < segs[j].index {
        IndicesIncrease(segs, k, j);
      }
    }
  }

  lemma {:induction false} IndicesIncrease(segs: seq<Segment>, k: nat, j: nat)
    requires forall m :: 0 <= m < |segs| - 1 ==> segs[m + 1].index == segs[m].index + segs[m].Width()
    requires k < j < |segs|
    ensures segs[k].index < segs[j].index
    decreases j - k
  {
    if j > k + 1 {
      IndicesIncrease(segs, k, j - 1);
    }
  }
}
