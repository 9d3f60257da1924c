/** The priority order of the span matcher:
    `[...vocab].sort((a, b) => b.word.length - a.word.length)`, a stable sort
    (as `Array.prototype.sort` is) by descending length of `word`. */
module LengthSort {
  import opened Strs
  import opened Vocab

  /** Longer words first. */
  ghost predicate Descending(s: seq<Entry>) {
    forall k, j :: 0 <= k < j < |s| ==> |s[k].word| >= |s[j].word|
  }

  /** Inserts `x` before the first entry whose word is not longer, so that it
      stays ahead of equally long entries that came after it in the input. */
  function Insert(x: Entry, s: seq<Entry>): (r: seq<Entry>)
    ensures |r| == |s| + 1
    ensures multiset(r) == multiset(s) + multiset{x}
  {
    if s == [] || |s[0].word| <= |x.word| then [x] + s
    else
      assert s == [s[0]] + s[1..];
      [s[0]] + Insert(x, s[1..])
  }

  function SortByLength(s: seq<Entry>): (r: seq<Entry>)
    ensures |r| == |s|
    ensures multiset(r) == multiset(s)
  {
    if s == [] then []
    else
      assert s == [s[0]] + s[1..];
      Insert(s[0], SortByLength(s[1..]))
  }

  lemma {:induction false} InsertDescending(x: Entry, s: seq<Entry>)
    requires Descending(s)
    ensures Descending(Insert(x, s))
  {
    if s != [] && |s[0].word| > |x.word| {
      InsertDescending(x, s[1..]);
      InsertBounded(x, s[1..], |s[0].word|);
    }
  }

  /** Inserting keeps a bound that `x` and all of `s` respect. */
  lemma InsertBounded(x: Entry, s: seq<Entry>, b: nat)
    requires |x.word| <= b && forall k :: 0 <= k < |s| ==> |s[k].word| <= b
    ensures forall j :: 0 <= j < |Insert(x, s)| ==> |Insert(x, s)[j].word| <= b
  {
    var t := Insert(x, s);
    forall j | 0 <= j < |t| ensures |t[j].word| <= b {
      assert t[j] in multiset(t);
      if t[j] != x {
        assert t[j] in multiset(s);
        var m :| 0 <= m < |s| && s[m] == t[j];
      }
    }
  }

  /** The sort puts longer words first and is a permutation of its input. */
  lemma {:induction false} SortByLengthDescending(s: seq<Entry>)
    ensures Descending(SortByLength(s))
    ensures multiset(SortByLength(s)) == multiset(s)
  {
    if s != [] {
      SortByLengthDescending(s[1..]);
      InsertDescending(s[0], SortByLength(s[1..]));
    }
  }

  /** The entries of one word length, in order. */
  function OfLength(s: seq<Entry>, n: nat): (r: seq<Entry>)
    ensures forall x :: x in r <==> x in s && |x.word| == n
  {
    if s == [] then []
    else if |s[0].word| == n then [s[0]] + OfLength(s[1..], n)
    else OfLength(s[1..], n)
  }

  lemma {:induction false} InsertOfLength(x: Entry, s: seq<Entry>, n: nat)
    requires Descending(s)
    ensures OfLength(Insert(x, s), n) == (if |x.word| == n then [x] else []) + OfLength(s, n)
  {
    if s == [] || |s[0].word| <= |x.word| {
    } else {
      InsertOfLength(x, s[1..], n);
    }
  }

  /** Stability: among entries of equal word length the sort keeps the input
      order. */
  lemma {:induction false} SortByLengthStable(s: seq<Entry>, n: nat)
    ensures OfLength(SortByLength(s), n) == OfLength(s, n)
  {
    if s != [] {
      SortByLengthStable(s[1..], n);
      SortByLengthDescending(s[1..]);
      InsertOfLength(s[0], SortByLength(s[1..]), n);
    }
  }
}
