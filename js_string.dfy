/** The parts of JavaScript's string semantics the two peers rely on:
    `String.prototype.trim` and `String.prototype.split` with a one-character
    separator. Strings are sequences of code points. */
module JsString {

  /** The code points ECMAScript classifies as WhiteSpace or LineTerminator.
      `trim` strips exactly these, and the string-to-number conversion behind
      `isNaN` ignores exactly these around a numeral. */
  predicate IsWhiteSpace(c: char) {
    c == '\t' || c == '\n' || c == '\U{000B}' || c == '\U{000C}' || c == '\r'
    || c == ' ' || c == '\U{00A0}' || c == '\U{1680}'
    || ('\U{2000}' <= c <= '\U{200A}')
    || c == '\U{2028}' || c == '\U{2029}' || c == '\U{202F}' || c == '\U{205F}'
    || c == '\U{3000}' || c == '\U{FEFF}'
  }

  predicate AllWhiteSpace(s: string) {
    forall i | 0 <= i < |s| :: IsWhiteSpace(s[i])
  }

  /** Neither the first nor the last code point of `s` is white space. */
  predicate NoOuterWhiteSpace(s: string) {
    s == [] || (!IsWhiteSpace(s[0]) && !IsWhiteSpace(s[|s| - 1]))
  }

  /** The index of the first code point of `s`, at or after `i`, that is not
      white space, or |s| when there is none. */
  function ContentStartFrom(s: string, i: nat): (r: nat)
    requires i <= |s|
    ensures i <= r <= |s|
    ensures forall k | i <= k < r :: IsWhiteSpace(s[k])
    ensures r < |s| ==> !IsWhiteSpace(s[r])
    decreases |s| - i
  {
    if i < |s| && IsWhiteSpace(s[i]) then ContentStartFrom(s, i + 1) else i
  }

  /** Where the text of `s` starts, once its leading white space is skipped. */
  function ContentStart(s: string): (r: nat)
    ensures r <= |s|
    ensures forall k | 0 <= k < r :: IsWhiteSpace(s[k])
    ensures r < |s| ==> !IsWhiteSpace(s[r])
  {
    ContentStartFrom(s, 0)
  }

  /** The index just past the last code point of `s` before `j`, and not before
      ContentStart(s), that is not white space. */
  function ContentEndFrom(s: string, j: nat): (r: nat)
    requires ContentStart(s) <= j <= |s|
    ensures ContentStart(s) <= r <= j
    ensures forall k | r <= k < j :: IsWhiteSpace(s[k])
    ensures r > ContentStart(s) ==> !IsWhiteSpace(s[r - 1])
    decreases j
  {
    if j > ContentStart(s) && IsWhiteSpace(s[j - 1]) then ContentEndFrom(s, j - 1) else j
  }

  /** Where the text of `s` ends, once its trailing white space is cut off. */
  function ContentEnd(s: string): (r: nat)
    ensures ContentStart(s) <= r <= |s|
    ensures forall k | r <= k < |s| :: IsWhiteSpace(s[k])
    ensures r > ContentStart(s) ==> !IsWhiteSpace(s[r - 1])
  {
    ContentEndFrom(s, |s|)
  }

  /** `String.prototype.trim`: `s` without its leading and trailing white space. */
  function Trim(s: string): string {
    s[ContentStart(s)..ContentEnd(s)]
  }

  /** ContentStart is the first position that is not white space. */
  lemma ContentStartAt(s: string, m: nat)
    requires m <= |s|
    requires forall k | 0 <= k < m :: IsWhiteSpace(s[k])
    requires m < |s| ==> !IsWhiteSpace(s[m])
    ensures ContentStart(s) == m
  {
  }

  /** ContentEnd is just past the last position that is not white space. */
  lemma ContentEndAt(s: string, n: nat)
    requires ContentStart(s) <= n <= |s|
    requires forall k | n <= k < |s| :: IsWhiteSpace(s[k])
    requires n > ContentStart(s) ==> !IsWhiteSpace(s[n - 1])
    ensures ContentEnd(s) == n
  {
  }

  /** Trim(s) is the part of `s` that lies between a white-space prefix and a
      white-space suffix, and itself neither starts nor ends with white space. */
  lemma TrimSplitsOffWhiteSpace(s: string)
    ensures NoOuterWhiteSpace(Trim(s))
    ensures s == s[..ContentStart(s)] + Trim(s) + s[ContentEnd(s)..]
    ensures AllWhiteSpace(s[..ContentStart(s)]) && AllWhiteSpace(s[ContentEnd(s)..])
  {
    var i, j := ContentStart(s), ContentEnd(s);
    ThreeSlices(s, i, j);
    TrimEnds(s);
    WhiteSpaceEnds(s);
  }

  lemma TrimEnds(s: string)
    ensures NoOuterWhiteSpace(Trim(s))
  {
    var i, j := ContentStart(s), ContentEnd(s);
    if i < j {
      assert Trim(s)[0] == s[i];
      assert Trim(s)[j - i - 1] == s[j - 1];
    }
  }

  lemma WhiteSpaceEnds(s: string)
    ensures AllWhiteSpace(s[..ContentStart(s)]) && AllWhiteSpace(s[ContentEnd(s)..])
  {
    var i, j := ContentStart(s), ContentEnd(s);
    assert forall k | 0 <= k < i :: s[..i][k] == s[k];
    assert forall k | 0 <= k < |s| - j :: s[j..][k] == s[j + k];
  }

  lemma ThreeSlices(s: string, i: nat, j: nat)
    requires i <= j <= |s|
    ensures s == s[..i] + s[i..j] + s[j..]
  {
  }

  /** A code point that is not white space lies inside the trimmed part. */
  lemma ContentAround(f: string, m: nat)
    requires m < |f| && !IsWhiteSpace(f[m])
    ensures ContentStart(f) <= m < ContentEnd(f)
  {
  }

  lemma SliceAround(a: string, c: char, b: string, i: nat, j: nat)
    requires i <= |a| < j <= |a| + 1 + |b|
    ensures (a + [c] + b)[i..j] == a[i..] + [c] + b[..j - |a| - 1]
  {
    var f := a + [c] + b;
    assert forall k | 0 <= k < |a| - i :: f[i..j][k] == a[i..][k];
    assert forall k | |a| - i + 1 <= k < j - i :: f[i..j][k] == b[k - (|a| - i + 1)];
  }

  lemma PrefixOfConcat(a: string, rest: string, i: nat)
    requires i <= |a|
    ensures (a + rest)[..i] == a[..i]
  {
  }

  lemma SuffixOfConcat(rest: string, b: string, j: nat)
    requires |rest| <= j <= |rest| + |b|
    ensures (rest + b)[j..] == b[j - |rest|..]
  {
  }

  /** Trimming a string with a non-white-space code point `c` in it removes
      white space from the part before `c` at its start only, and from the
      part after `c` at its end only. */
  lemma TrimAround(a: string, c: char, b: string) returns (w1: string, a': string, b': string, w2: string)
    requires !IsWhiteSpace(c)
    ensures a == w1 + a' && b == b' + w2 && AllWhiteSpace(w1) && AllWhiteSpace(w2)
    ensures Trim(a + [c] + b) == a' + [c] + b'
  {
    var f := a + [c] + b;
    var i, j := ContentStart(f), ContentEnd(f);
    assert f[|a|] == c;
    ContentAround(f, |a|);
    WhiteSpaceEnds(f);
    w1, a' := a[..i], a[i..];
    b', w2 := b[..j - |a| - 1], b[j - |a| - 1..];
    PrefixOfConcat(a, [c] + b, i);
    assert f == a + ([c] + b);
    SuffixOfConcat(a + [c], b, j);
    SliceAround(a, c, b, i, j);
  }

  /** The converse of TrimSplitsOffWhiteSpace: whatever white space surrounds a
      string without outer white space, trimming recovers exactly that string. */
  lemma TrimOfPadded(w1: string, t: string, w2: string)
    requires AllWhiteSpace(w1) && AllWhiteSpace(w2) && NoOuterWhiteSpace(t)
    ensures Trim(w1 + t + w2) == t
  {
    var s := w1 + t + w2;
    assert forall k | 0 <= k < |w1| :: s[k] == w1[k];
    assert forall k | 0 <= k < |t| :: s[|w1| + k] == t[k];
    assert forall k | 0 <= k < |w2| :: s[|w1| + |t| + k] == w2[k];
    if t == [] {
      ContentStartAt(s, |s|);
      ContentEndAt(s, |s|);
    } else {
      ContentStartAt(s, |w1|);
      forall k | |w1| + |t| <= k < |s| ensures IsWhiteSpace(s[k]) {
        assert s[k] == w2[k - |w1| - |t|];
      }
      ContentEndAt(s, |w1| + |t|);
      assert s[|w1|..|w1| + |t|] == t;
    }
  }

  /** Extra white space around a string never changes what it trims to. */
  lemma TrimIgnoresPadding(w1: string, s: string, w2: string)
    requires AllWhiteSpace(w1) && AllWhiteSpace(w2)
    ensures Trim(w1 + s + w2) == Trim(s)
  {
    var p := w1 + s + w2;
    var i, j := ContentStart(s), ContentEnd(s);
    if i == |s| {
      PaddedBlank(w1, s, w2);
    } else {
      PaddedStart(w1, s, w2);
      PaddedEnd(w1, s, w2);
      assert forall k | 0 <= k < j - i :: p[|w1| + i..|w1| + j][k] == s[i..j][k];
    }
  }

  lemma PaddedBlank(w1: string, s: string, w2: string)
    requires AllWhiteSpace(w1) && AllWhiteSpace(w2) && ContentStart(s) == |s|
    ensures ContentStart(w1 + s + w2) == |w1 + s + w2|
  {
    var p := w1 + s + w2;
    forall k | 0 <= k < |p| ensures IsWhiteSpace(p[k]) {
      if k < |w1| { assert p[k] == w1[k]; }
      else if k < |w1| + |s| { assert p[k] == s[k - |w1|]; }
      else { assert p[k] == w2[k - |w1| - |s|]; }
    }
    ContentStartAt(p, |p|);
  }

  lemma PaddedStart(w1: string, s: string, w2: string)
    requires AllWhiteSpace(w1) && ContentStart(s) < |s|
    ensures ContentStart(w1 + s + w2) == |w1| + ContentStart(s)
  {
    var p := w1 + s + w2;
    var i := ContentStart(s);
    forall k | 0 <= k < |w1| + i ensures IsWhiteSpace(p[k]) {
      if k < |w1| { assert p[k] == w1[k]; } else { assert p[k] == s[k - |w1|]; }
    }
    assert p[|w1| + i] == s[i];
    ContentStartAt(p, |w1| + i);
  }

  lemma PaddedEnd(w1: string, s: string, w2: string)
    requires AllWhiteSpace(w2) && ContentStart(s) < |s|
    requires ContentStart(w1 + s + w2) == |w1| + ContentStart(s)
    ensures ContentEnd(w1 + s + w2) == |w1| + ContentEnd(s)
  {
    var p := w1 + s + w2;
    var j := ContentEnd(s);
    forall k | |w1| + j <= k < |p| ensures IsWhiteSpace(p[k]) {
      if k < |w1| + |s| { assert p[k] == s[k - |w1|]; } else { assert p[k] == w2[k - |w1| - |s|]; }
    }
    assert p[|w1| + j - 1] == s[j - 1];
    ContentEndAt(p, |w1| + j);
  }

  lemma AllWhiteSpaceConcat(a: string, b: string)
    requires AllWhiteSpace(a) && AllWhiteSpace(b)
    ensures AllWhiteSpace(a + b)
  {
    assert forall k | 0 <= k < |a + b| :: (a + b)[k] == if k < |a| then a[k] else b[k - |a|];
  }

  /** Trimming twice is trimming once. */
  lemma TrimIdempotent(s: string)
    ensures Trim(Trim(s)) == Trim(s)
  {
    TrimSplitsOffWhiteSpace(s);
    assert [] + Trim(s) + [] == Trim(s);
    TrimOfPadded([], Trim(s), []);
  }

  /** The position of the first `c` in `s`, or |s| when there is none. */
  function IndexOf(s: string, c: char): (k: nat)
    ensures k <= |s|
    ensures c !in s[..k]
    ensures k < |s| ==> s[k] == c
    ensures k == |s| <==> c !in s
  {
    if s == [] then 0
    else if s[0] == c then 0
    else
      assert s[1..][..IndexOf(s[1..], c)] == s[1..1 + IndexOf(s[1..], c)];
      1 + IndexOf(s[1..], c)
  }

  /** The first `c` in `s` is at `k` when `s[k]` is `c` and no earlier element is. */
  lemma IndexOfAt(s: string, c: char, k: nat)
    requires k < |s| && s[k] == c && c !in s[..k]
    ensures IndexOf(s, c) == k
  {
    var j := IndexOf(s, c);
    assert forall m | 0 <= m < k :: s[..k][m] == s[m];
    assert forall m | 0 <= m < j :: s[..j][m] == s[m];
  }

  /** Joins the pieces with `sep` between consecutive ones, like `Array.prototype.join`. */
  function Join(pieces: seq<string>, sep: char): string
    decreases |pieces|
  {
    if pieces == [] then []
    else if |pieces| == 1 then pieces[0]
    else pieces[0] + [sep] + Join(pieces[1..], sep)
  }

  /** `s.split(sep)` for a one-character separator: the pieces between the
      occurrences of `sep`. There is always one piece more than there are
      separators (so "" gives [""] and "," gives ["", ""]), no piece contains the separator, and joining
      the pieces back with the separator gives `s`. */
  function Split(s: string, sep: char): (pieces: seq<string>)
    ensures |pieces| >= 1 && (|pieces| == 1 <==> sep !in s)
    ensures forall i | 0 <= i < |pieces| :: sep !in pieces[i]
    ensures Join(pieces, sep) == s
    decreases |s|
  {
    var k := IndexOf(s, sep);
    if k == |s| then [s]
    else
      assert s == s[..k] + [sep] + s[k + 1..];
      [s[..k]] + Split(s[k + 1..], sep)
  }

  /** Split undoes Join when the pieces do not contain the separator. */
  lemma {:induction false} SplitJoin(pieces: seq<string>, sep: char)
    requires |pieces| > 0
    requires forall i | 0 <= i < |pieces| :: sep !in pieces[i]
    ensures Split(Join(pieces, sep), sep) == pieces
    decreases |pieces|
  {
    if |pieces| == 1 {
      assert sep !in pieces[0];
    } else {
      var s := Join(pieces, sep);
      var head := pieces[0];
      assert sep !in head;
      assert s == head + [sep] + Join(pieces[1..], sep);
      assert s[..|head|] == head;
      assert s[|head|] == sep;
      IndexOfAt(s, sep, |head|);
      assert s[|head| + 1..] == Join(pieces[1..], sep);
      SplitJoin(pieces[1..], sep);
    }
  }

  /** Splitting gives exactly two pieces `a` and `b` precisely when the string
      is `a`, the separator, then `b`, with no separator in `a` or `b`. */
  lemma SplitIntoTwo(s: string, sep: char, a: string, b: string)
    ensures Split(s, sep) == [a, b] <==> (s == a + [sep] + b && sep !in a && sep !in b)
  {
    if Split(s, sep) == [a, b] {
      var p := Split(s, sep);
      assert p[0] == a && p[1] == b;
      assert Join(p, sep) == a + [sep] + Join(p[1..], sep);
      assert p[1..] == [b];
    }
    if s == a + [sep] + b && sep !in a && sep !in b {
      assert Join([a, b], sep) == a + [sep] + Join([b], sep);
      SplitJoin([a, b], sep);
    }
  }
}
