/** String and sequence helpers shared by every component: the JavaScript
    whitespace class, ASCII lower-casing, `trim`, the three kinds of `split`
    the source uses, `join`, and generic `filter`/`map` over sequences. */
module Strs {

  datatype Option<+T> = None | Some(value: T)

  /** The characters JavaScript's `\s` (and `String.prototype.trim`) treat as
      white space: WhiteSpace plus LineTerminator of ECMA-262. */
  predicate IsSpace(c: char) {
    c == ' ' || c == '\t' || c == '\n' || c == '\r' || c == '\U{000B}' || c == '\U{000C}'
    || c == '\U{00A0}' || c == '\U{1680}' || ('\U{2000}' <= c <= '\U{200A}')
    || c == '\U{2028}' || c == '\U{2029}' || c == '\U{202F}' || c == '\U{205F}'
    || c == '\U{3000}' || c == '\U{FEFF}'
  }

  predicate AllSpace(s: string) {
    forall k :: 0 <= k < |s| ==> IsSpace(s[k])
  }

  predicate NoSpace(s: string) {
    forall k :: 0 <= k < |s| ==> !IsSpace(s[k])
  }

  /** `toLowerCase` restricted to ASCII letters. */
  function Lower(c: char): (r: char)
    ensures 'A' <= c <= 'Z' ==> r as int == c as int + 32
    ensures !('A' <= c <= 'Z') ==> r == c
  {
    if 'A' <= c <= 'Z' then (c as int + 32) as char else c
  }

  function LowerStr(s: string): (r: string)
    ensures |r| == |s|
  {
    if s == [] then [] else [Lower(s[0])] + LowerStr(s[1..])
  }

  /** `LowerStr` lowers each character in place. */
  lemma {:induction false} LowerStrAt(s: string)
    ensures forall k :: 0 <= k < |s| ==> LowerStr(s)[k] == Lower(s[k])
  {
    if s != [] {
      LowerStrAt(s[1..]);
      assert forall k :: 1 <= k < |s| ==> LowerStr(s)[k] == LowerStr(s[1..])[k - 1];
    }
  }

  lemma LowerIdempotent(c: char)
    ensures Lower(Lower(c)) == Lower(c)
  {
  }

  lemma {:induction false} LowerStrIdempotent(s: string)
    ensures LowerStr(LowerStr(s)) == LowerStr(s)
  {
    var l := LowerStr(s);
    LowerStrAt(s);
    LowerStrAt(l);
    forall k | 0 <= k < |s| ensures LowerStr(l)[k] == l[k] {
      LowerIdempotent(s[k]);
    }
  }

  /** `trimStart`: drops the leading white space. */
  function TrimStart(s: string): (r: string)
    ensures |r| <= |s| && r == s[|s| - |r|..]
    ensures AllSpace(s[..|s| - |r|])
    ensures r == [] || !IsSpace(r[0])
  {
    if s != [] && IsSpace(s[0]) then
      var t := TrimStart(s[1..]);
      assert s[1..][..|s[1..]| - |t|] == s[1..|s| - |t|];
      t
    else s
  }

  /** `trimEnd`: drops the trailing white space. */
  function TrimEnd(s: string): (r: string)
    ensures |r| <= |s| && r == s[..|r|]
    ensures AllSpace(s[|r|..])
    ensures r == [] || !IsSpace(r[|r| - 1])
  {
    if s != [] && IsSpace(s[|s| - 1]) then
      var t := TrimEnd(s[..|s| - 1]);
      assert s[..|s| - 1][|t|..] == s[|t|..|s| - 1] && s[..|s| - 1][..|t|] == s[..|t|];
      AllSpaceSnoc(s, |t|);
      t
    else s
  }

  /** A white-space run followed by one more white space is a run. */
  lemma AllSpaceSnoc(s: string, i: nat)
    requires i < |s| && AllSpace(s[i..|s| - 1]) && IsSpace(s[|s| - 1])
    ensures AllSpace(s[i..])
  {
    assert forall k :: i <= k < |s| - 1 ==> s[k] == s[i..|s| - 1][k - i];
  }

  /** Trailing white space after a non-space is what `trimEnd` drops. */
  lemma {:induction false} TrimEndSpace(a: string, g: string)
    requires a != [] && !IsSpace(a[|a| - 1]) && AllSpace(g)
    ensures TrimEnd(a + g) == a
    decreases |g|
  {
    if g == [] {
      assert a + g == a;
    } else {
      var g' := g[..|g| - 1];
      assert (a + g)[..|a + g| - 1] == a + g';
      TrimEndSpace(a, g');
    }
  }

  /** `String.prototype.trim`. */
  function Trim(s: string): (r: string)
    ensures |r| <= |s|
    ensures r == [] || (!IsSpace(r[0]) && !IsSpace(r[|r| - 1]))
  {
    TrimEnd(TrimStart(s))
  }

  /** `s` is leading white space, then the trimmed text, then trailing white
      space. */
  lemma TrimSlice(s: string) returns (a: nat, b: nat)
    ensures a <= b <= |s| && Trim(s) == s[a..b]
    ensures AllSpace(s[..a]) && AllSpace(s[b..])
  {
    var t := TrimStart(s);
    var r := TrimEnd(t);
    a := |s| - |t|;
    b := a + |r|;
    assert s[b..] == t[|r|..];
  }

  lemma TrimAllSpace(s: string)
    ensures Trim(s) == [] <==> AllSpace(s)
  {
    var r := Trim(s);
    var a, b := TrimSlice(s);
    if r == [] {
      assert a == b;
      forall k | 0 <= k < |s| ensures IsSpace(s[k]) {
        if k < a { assert s[..a][k] == s[k]; } else { assert s[b..][k - b] == s[k]; }
      }
    }
  }

  /** Concatenation of a list of strings. */
  function Concat(parts: seq<string>): (r: string)
    ensures parts == [] ==> r == []
  {
    if parts == [] then [] else parts[0] + Concat(parts[1..])
  }

  lemma {:induction false} ConcatAppend(a: seq<string>, b: seq<string>)
    ensures Concat(a + b) == Concat(a) + Concat(b)
  {
    if a == [] {
      assert a + b == b;
    } else {
      assert (a + b)[1..] == a[1..] + b;
      ConcatAppend(a[1..], b);
    }
  }

  /** `Array.prototype.join(sep)`. */
  function JoinWith(parts: seq<string>, sep: string): (r: string)
    ensures |parts| == 1 ==> r == parts[0]
  {
    if parts == [] then []
    else if |parts| == 1 then parts[0]
    else parts[0] + sep + JoinWith(parts[1..], sep)
  }

  /** `s.split(/[cs]/)` for a class of single separator characters, no limit.
      JavaScript returns `[""]` for the empty string. */
  function SplitOnChars(s: string, seps: set<char>): (r: seq<string>)
    ensures |r| >= 1
    ensures forall k, j :: 0 <= k < |r| && 0 <= j < |r[k]| ==> r[k][j] !in seps
    decreases |s|
  {
    if s == [] then [[]]
    else if s[0] in seps then [[]] + SplitOnChars(s[1..], seps)
    else
      var rest := SplitOnChars(s[1..], seps);
      [[s[0]] + rest[0]] + rest[1..]
  }

  /** Joining a list whose first part starts with `x`. */
  lemma JoinWithCons(x: char, rest: seq<string>, sep: string)
    requires |rest| >= 1
    ensures JoinWith([[x] + rest[0]] + rest[1..], sep) == [x] + JoinWith(rest, sep)
  {
    var r := [[x] + rest[0]] + rest[1..];
    if |rest| > 1 {
      assert r[1..] == rest[1..];
    }
  }

  /** Joining a list whose first part is empty. */
  lemma JoinWithEmptyHead(rest: seq<string>, sep: string)
    requires |rest| >= 1
    ensures JoinWith([[]] + rest, sep) == sep + JoinWith(rest, sep)
  {
    assert ([[]] + rest)[1..] == rest;
  }

  /** Splitting on a single character and joining with it again gives back the
      input. */
  lemma {:induction false} SplitOnCharJoin(s: string, c: char)
    ensures JoinWith(SplitOnChars(s, {c}), [c]) == s
    decreases |s|
  {
    if s != [] {
      SplitOnCharJoin(s[1..], c);
      if s[0] == c {
        JoinWithEmptyHead(SplitOnChars(s[1..], {c}), [c]);
      } else {
        JoinWithCons(s[0], SplitOnChars(s[1..], {c}), [c]);
      }
    }
  }

  /** `s.split(sep)` for a non-empty literal separator: occurrences are found
      left to right and do not overlap. */
  function SplitOnString(s: string, sep: string): (r: seq<string>)
    requires sep != []
    ensures |r| >= 1
    decreases |s|
  {
    if |sep| <= |s| && s[..|sep|] == sep then [[]] + SplitOnString(s[|sep|..], sep)
    else if s == [] then [[]]
    else
      var rest := SplitOnString(s[1..], sep);
      [[s[0]] + rest[0]] + rest[1..]
  }

  /** Splitting on a literal separator and joining with it gives back the
      input. */
  lemma {:induction false} SplitOnStringJoin(s: string, sep: string)
    requires sep != []
    ensures JoinWith(SplitOnString(s, sep), sep) == s
    decreases |s|
  {
    if |sep| <= |s| && s[..|sep|] == sep {
      var rest := SplitOnString(s[|sep|..], sep);
      assert SplitOnString(s, sep) == [[]] + rest;
      SplitOnStringJoin(s[|sep|..], sep);
      JoinWithEmptyHead(rest, sep);
      assert s == sep + s[|sep|..];
    } else if s != [] {
      var rest := SplitOnString(s[1..], sep);
      assert SplitOnString(s, sep) == [[s[0]] + rest[0]] + rest[1..];
      SplitOnStringJoin(s[1..], sep);
      JoinWithCons(s[0], rest, sep);
      assert s == [s[0]] + s[1..];
    }
  }

  /** Length of the maximal prefix of `s` made of white space. */
  function SpaceRun(s: string): (n: nat)
    ensures n <= |s| && AllSpace(s[..n])
    ensures n < |s| ==> !IsSpace(s[n])
  {
    if s != [] && IsSpace(s[0]) then
      var n := 1 + SpaceRun(s[1..]);
      assert s[..n] == [s[0]] + s[1..][..n - 1];
      n
    else 0
  }

  /** A white space run followed by a non-space is measured exactly. */
  lemma {:induction false} SpaceRunAppend(g: string, b: string)
    requires AllSpace(g) && (b == [] || !IsSpace(b[0]))
    ensures SpaceRun(g + b) == |g|
  {
    if g != [] {
      assert (g + b)[1..] == g[1..] + b;
      SpaceRunAppend(g[1..], b);
    } else {
      assert g + b == b;
    }
  }

  /** Length of the maximal prefix of `s` free of white space. */
  function WordRun(s: string): (n: nat)
    ensures n <= |s| && NoSpace(s[..n])
    ensures n < |s| ==> IsSpace(s[n])
  {
    if s != [] && !IsSpace(s[0]) then
      var n := 1 + WordRun(s[1..]);
      assert s[..n] == [s[0]] + s[1..][..n - 1];
      n
    else 0
  }

  /** `s.trim().split(/\s+/).filter(Boolean)`: the maximal runs of non-space
      characters, in order. */
  function Words(s: string): (r: seq<string>)
    ensures forall k :: 0 <= k < |r| ==> r[k] != [] && NoSpace(r[k])
    decreases |s|
  {
    if s == [] then []
    else if IsSpace(s[0]) then Words(s[1..])
    else
      var n := WordRun(s);
      [s[..n]] + Words(s[n..])
  }

  /** `s` with every white-space character removed. */
  function Squeeze(s: string): (r: string)
    ensures NoSpace(r) && |r| <= |s|
  {
    if s == [] then []
    else if IsSpace(s[0]) then Squeeze(s[1..])
    else [s[0]] + Squeeze(s[1..])
  }

  lemma {:induction false} SqueezeAppend(a: string, b: string)
    ensures Squeeze(a + b) == Squeeze(a) + Squeeze(b)
    decreases |a|
  {
    if a == [] {
      assert a + b == b;
    } else {
      assert (a + b)[1..] == a[1..] + b;
      SqueezeAppend(a[1..], b);
    }
  }

  lemma {:induction false} SqueezeNoSpace(s: string)
    requires NoSpace(s)
    ensures Squeeze(s) == s
    decreases |s|
  {
    if s != [] {
      SqueezeNoSpace(s[1..]);
    }
  }

  /** The words of `s`, put back together, are `s` without its white space:
      splitting on white space loses nothing but the white space. */
  lemma {:induction false} WordsSqueeze(s: string)
    ensures Concat(Words(s)) == Squeeze(s)
    decreases |s|
  {
    if s == [] {
    } else if IsSpace(s[0]) {
      WordsSqueeze(s[1..]);
    } else {
      var n := WordRun(s);
      WordsSqueeze(s[n..]);
      assert s == s[..n] + s[n..];
      SqueezeAppend(s[..n], s[n..]);
      SqueezeNoSpace(s[..n]);
    }
  }

  /** `Array.prototype.filter`. */
  function Filter<T(!new)>(s: seq<T>, f: T -> bool): (r: seq<T>)
    ensures |r| <= |s|
    ensures forall x :: x in r <==> x in s && f(x)
  {
    if s == [] then []
    else if f(s[0]) then [s[0]] + Filter(s[1..], f)
    else Filter(s[1..], f)
  }

  lemma {:induction false} FilterAppend<T(!new)>(a: seq<T>, b: seq<T>, f: T -> bool)
    ensures Filter(a + b, f) == Filter(a, f) + Filter(b, f)
  {
    if a == [] {
      assert a + b == b;
    } else {
      assert (a + b)[1..] == a[1..] + b;
      FilterAppend(a[1..], b, f);
    }
  }

  /** Filtering around one element. */
  lemma FilterAround<T(!new)>(a: seq<T>, x: T, b: seq<T>, f: T -> bool)
    ensures Filter(a + [x] + b, f) == Filter(a, f) + (if f(x) then [x] else []) + Filter(b, f)
  {
    assert Filter([x], f) == (if f(x) then [x] else []) by {
      assert [x][1..] == [];
    }
    FilterAppend(a + [x], b, f);
    FilterAppend(a, [x], f);
  }

  /** Filtering twice keeps what filtering once keeps. */
  lemma {:induction false} FilterIdempotent<T(!new)>(s: seq<T>, f: T -> bool)
    ensures Filter(Filter(s, f), f) == Filter(s, f)
  {
    if s != [] {
      FilterIdempotent(s[1..], f);
      if f(s[0]) {
        assert ([s[0]] + Filter(s[1..], f))[1..] == Filter(s[1..], f);
      }
    }
  }

  /** `Array.prototype.map`. */
  function Map<A, B>(s: seq<A>, f: A -> B): (r: seq<B>)
    ensures |r| == |s|
    ensures forall k :: 0 <= k < |s| ==> r[k] == f(s[k])
  {
    if s == [] then [] else [f(s[0])] + Map(s[1..], f)
  }

  lemma MapThree<A, B>(x: A, y: A, z: A, f: A -> B)
    ensures Map([x, y, z], f) == [f(x), f(y), f(z)]
  {
  }

  /** What `map` produces is exactly the images of the input's elements. */
  lemma MapMember<A, B>(s: seq<A>, f: A -> B, y: B)
    ensures y in Map(s, f) <==> exists x :: x in s && f(x) == y
  {
    var r := Map(s, f);
    if y in r {
      var k :| 0 <= k < |r| && r[k] == y;
      assert s[k] in s;
    }
    if exists x :: x in s && f(x) == y {
      var x :| x in s && f(x) == y;
      var k :| 0 <= k < |s| && s[k] == x;
      assert r[k] == y;
    }
  }

  /** Filtering a list all of whose elements pass leaves it unchanged. */
  lemma {:induction false} FilterKeepsAll<T(!new)>(s: seq<T>, f: T -> bool)
    requires forall k :: 0 <= k < |s| ==> f(s[k])
    ensures Filter(s, f) == s
  {
    if s != [] {
      FilterKeepsAll(s[1..], f);
    }
  }

  /** A prefix free of the separator stays glued to the first piece. */
  lemma {:induction false} SplitOnCharPrefix(p: string, rest: string, c: char)
    requires forall j :: 0 <= j < |p| ==> p[j] != c
    ensures var t := SplitOnChars(rest, {c});
      SplitOnChars(p + rest, {c}) == [p + t[0]] + t[1..]
  {
    if p != [] {
      assert (p + rest)[1..] == p[1..] + rest;
      SplitOnCharPrefix(p[1..], rest, c);
      assert [p[0]] + (p[1..] + SplitOnChars(rest, {c})[0]) == p + SplitOnChars(rest, {c})[0];
    } else {
      var t := SplitOnChars(rest, {c});
      assert p + rest == rest && p + t[0] == t[0];
      assert t == [t[0]] + t[1..];
    }
  }

  /** Joining pieces free of `c` with `c` and splitting on `c` gives the
      pieces back. */
  lemma {:induction false} JoinThenSplit(parts: seq<string>, c: char)
    requires |parts| >= 1
    requires forall k, j :: 0 <= k < |parts| && 0 <= j < |parts[k]| ==> parts[k][j] != c
    ensures SplitOnChars(JoinWith(parts, [c]), {c}) == parts
  {
    if |parts| == 1 {
      SplitOnCharPrefix(parts[0], [], c);
      assert parts[0] + [] == parts[0];
    } else {
      var tail := JoinWith(parts[1..], [c]);
      JoinThenSplit(parts[1..], c);
      assert JoinWith(parts, [c]) == parts[0] + ([c] + tail);
      SplitOnCharPrefix(parts[0], [c] + tail, c);
      assert ([c] + tail)[1..] == tail;
      var t := SplitOnChars([c] + tail, {c});
      assert t == [[]] + parts[1..];
      assert parts[0] + t[0] == parts[0];
      assert parts == [parts[0]] + parts[1..];
    }
  }

  /** `new Set(s.map(f))` */
  function Image<T>(s: seq<T>, f: T -> string): (r: set<string>)
    ensures forall i :: 0 <= i < |s| ==> f(s[i]) in r
    ensures forall k :: k in r ==> exists i :: 0 <= i < |s| && f(s[i]) == k
  {
    if s == [] then {}
    else
      var rest := Image(s[1..], f);
      assert forall i :: 1 <= i < |s| ==> s[i] == s[1..][i - 1];
      {f(s[0])} + rest
  }

  /** There are at most as many distinct images as elements, and exactly as
      many when no two elements share one. */
  lemma {:induction false} ImageCount<T>(s: seq<T>, f: T -> string)
    ensures |Image(s, f)| <= |s|
    ensures |Image(s, f)| == |s| <==> forall i, j :: 0 <= i < j < |s| ==> f(s[i]) != f(s[j])
  {
    if s != [] {
      ImageCount(s[1..], f);
      DistinctCons(s, f);
      assert Image(s, f) == {f(s[0])} + Image(s[1..], f);
    }
  }

  /** A list has distinct keys exactly when its tail has and the head's key
      is not among the tail's. */
  lemma DistinctCons<T>(s: seq<T>, f: T -> string)
    requires s != []
    ensures (forall i, j :: 0 <= i < j < |s| ==> f(s[i]) != f(s[j])) <==>
      (forall i, j :: 0 <= i < j < |s[1..]| ==> f(s[1..][i]) != f(s[1..][j])) && f(s[0]) !in Image(s[1..], f)
  {
    var rest := s[1..];
    var k0 := f(s[0]);
    var distinct := forall i, j :: 0 <= i < j < |s| ==> f(s[i]) != f(s[j]);
    var distinctRest := forall i, j :: 0 <= i < j < |rest| ==> f(rest[i]) != f(rest[j]);
    if k0 in Image(rest, f) {
      var j :| 0 <= j < |rest| && f(rest[j]) == k0;
      assert f(s[j + 1]) == k0;
    }
    if distinctRest && k0 !in Image(rest, f) {
      forall i, j | 0 <= i < j < |s| ensures f(s[i]) != f(s[j]) {
        assert s[j] == rest[j - 1];
        if i > 0 {
          assert s[i] == rest[i - 1];
        }
      }
    }
    if distinct {
      forall i, j | 0 <= i < j < |rest| ensures f(rest[i]) != f(rest[j]) {
        assert rest[i] == s[i + 1] && rest[j] == s[j + 1];
      }
    }
  }

  /** `e => e.trim() !== ''`: the text is not all white space. */
  function NonBlank(e: string): bool {
    Trim(e) != []
  }

  /** `x || []` on an optional list. */
  function OrEmpty<T>(x: Option<seq<T>>): seq<T> {
    match x
    case None => []
    case Some(s) => s
  }

  /** `s.filter((_, i) => i !== index)`: every element but the one at
      position `index`, or all of them when `index` is no position. */
  function DropAt<T>(s: seq<T>, index: int): (r: seq<T>)
    ensures 0 <= index < |s| ==> r == s[..index] + s[index + 1..]
    ensures !(0 <= index < |s|) ==> r == s
  {
    if s == [] then []
    else if index == 0 then s[1..]
    else [s[0]] + DropAt(s[1..], index - 1)
  }
}
