/** The few operations on Python strings that the pipeline uses: whitespace
    as `str.isspace` defines it, `strip`, `split()` without arguments,
    `join`, the substring test `in`, `lower` and `replace`. */
module Text {

  /** Python's `str.isspace` for a single character. The same characters are
      removed by `str.strip()`, separate tokens for `str.split()` and match
      the regular-expression class `\s`. */
  predicate IsSpace(c: char) {
    c == ' ' || ('\t' <= c <= '\r') || ('\U{1C}' <= c <= '\U{1F}')
    || c == '\U{85}' || c == '\U{A0}' || c == '\U{1680}'
    || ('\U{2000}' <= c <= '\U{200A}') || c == '\U{2028}' || c == '\U{2029}'
    || c == '\U{202F}' || c == '\U{205F}' || c == '\U{3000}'
  }

  predicate AllSpace(s: string) {
    forall k :: 0 <= k < |s| ==> IsSpace(s[k])
  }

  predicate NoSpace(s: string) {
    forall k :: 0 <= k < |s| ==> !IsSpace(s[k])
  }

  /** A string that `strip()` leaves unchanged. */
  predicate Trimmed(s: string) {
    s == [] || (!IsSpace(s[0]) && !IsSpace(s[|s| - 1]))
  }

  /** `s.strip()`: the result has no whitespace at either end, and it is
      empty exactly when `s` is whitespace only. */
  function Strip(s: string): (r: string)
    ensures Trimmed(r)
    ensures r == [] <==> AllSpace(s)
    decreases |s|
  {
    if s != [] && IsSpace(s[0]) then
      assert forall k :: 1 <= k < |s| ==> s[k] == s[1..][k - 1];
      Strip(s[1..])
    else if s != [] && IsSpace(s[|s| - 1]) then
      assert forall k :: 0 <= k < |s| - 1 ==> s[k] == s[..|s| - 1][k];
      Strip(s[..|s| - 1])
    else s
  }

  /** Stripping only removes characters: one absent from `s` is absent from
      the result. */
  lemma {:induction false} StripKeepsOut(s: string, c: char)
    requires c !in s
    ensures c !in Strip(s)
    decreases |s|
  {
    if s != [] && IsSpace(s[0]) {
      assert forall k :: 0 <= k < |s| - 1 ==> s[1..][k] == s[k + 1];
      StripKeepsOut(s[1..], c);
    } else if s != [] && IsSpace(s[|s| - 1]) {
      assert forall k :: 0 <= k < |s| - 1 ==> s[..|s| - 1][k] == s[k];
      StripKeepsOut(s[..|s| - 1], c);
    }
  }

  /** Stripping a string that is already trimmed changes nothing. */
  lemma {:induction false} StripTrimmed(s: string)
    requires Trimmed(s)
    ensures Strip(s) == s
  {
  }

  /** Length of the leading run of non-whitespace characters. */
  function WordLength(t: string): (n: nat)
    ensures n <= |t|
    ensures forall k :: 0 <= k < n ==> !IsSpace(t[k])
    ensures n < |t| ==> IsSpace(t[n])
  {
    if t == [] || IsSpace(t[0]) then 0
    else
      var n := WordLength(t[1..]) + 1;
      assert forall k :: 1 <= k < n ==> t[k] == t[1..][k - 1];
      n
  }

  /** `s.split()`: the maximal runs of non-whitespace characters, in order.
      Every token is non-empty and holds no whitespace. */
  function Words(s: string): (w: seq<string>)
    ensures forall k :: 0 <= k < |w| ==> w[k] != [] && NoSpace(w[k])
    decreases |s|
  {
    if s == [] then []
    else if IsSpace(s[0]) then Words(s[1..])
    else
      var n := WordLength(s);
      var rest := Words(s[n..]);
      var w := [s[..n]] + rest;
      assert forall k :: 1 <= k < |w| ==> w[k] == rest[k - 1];
      w
  }

  /** A non-empty string without whitespace is a single token. */
  lemma {:induction false} WordsSingle(s: string)
    requires s != [] && NoSpace(s)
    ensures Words(s) == [s]
  {
    WordLengthAll(s);
    assert s[..|s|] == s && s[|s|..] == [];
  }

  lemma {:induction false} WordLengthAll(s: string)
    requires NoSpace(s)
    ensures WordLength(s) == |s|
    decreases |s|
  {
    if s != [] {
      assert forall k :: 0 <= k < |s| - 1 ==> s[1..][k] == s[k + 1];
      WordLengthAll(s[1..]);
    }
  }

  /** The leading run stops at the first whitespace character. */
  lemma {:induction false} WordLengthSpace(a: string, c: char, b: string)
    requires IsSpace(c)
    ensures WordLength(a + [c] + b) == WordLength(a)
    decreases |a|
  {
    var s := a + [c] + b;
    if a == [] {
      assert s[0] == c;
    } else if !IsSpace(a[0]) {
      assert s[1..] == a[1..] + [c] + b;
      WordLengthSpace(a[1..], c, b);
    }
  }

  /** Splitting distributes over a whitespace character: the tokens of
      `a + [c] + b` are those of `a` followed by those of `b`. Together with
      `WordsSingle` and `WordsEmpty` this fixes the tokens of every
      string. */
  lemma {:induction false} WordsSplitSpace(a: string, c: char, b: string)
    requires IsSpace(c)
    ensures Words(a + [c] + b) == Words(a) + Words(b)
    decreases |a|
  {
    var s := a + [c] + b;
    if a == [] {
      assert s[0] == c && s[1..] == b;
    } else if IsSpace(a[0]) {
      assert s[0] == a[0] && s[1..] == a[1..] + [c] + b;
      WordsSplitSpace(a[1..], c, b);
    } else {
      var n := WordLength(a);
      WordLengthSpace(a, c, b);
      assert s[0] == a[0];
      assert s[..n] == a[..n];
      assert s[n..] == a[n..] + [c] + b;
      WordsSplitSpace(a[n..], c, b);
      assert Words(s) == [a[..n]] + (Words(a[n..]) + Words(b));
    }
  }

  /** A string has no words exactly when it is whitespace only. */
  lemma {:induction false} WordsEmpty(s: string)
    ensures Words(s) == [] <==> AllSpace(s)
    decreases |s|
  {
    if s != [] && IsSpace(s[0]) {
      WordsEmpty(s[1..]);
      assert forall k :: 0 < k < |s| ==> s[k] == s[1..][k - 1];
    }
  }

  /** The total length of the parts. */
  function TotalLength(xs: seq<string>): nat {
    if xs == [] then 0 else |xs[0]| + TotalLength(xs[1..])
  }

  /** `sep.join(xs)`: the parts with one separator between each two, so it
      begins with the first part and is as long as the parts and the
      separators together. */
  function Join(xs: seq<string>, sep: string): (r: string)
    ensures xs == [] ==> r == []
    ensures xs != [] ==> |r| == TotalLength(xs) + (|xs| - 1) * |sep| && r[..|xs[0]|] == xs[0]
    ensures |xs| == 1 ==> r == xs[0]
  {
    if xs == [] then ""
    else if |xs| == 1 then xs[0]
    else
      var r := xs[0] + sep + Join(xs[1..], sep);
      assert r[..|xs[0]|] == xs[0];
      r
  }

  /** Joining two non-empty lists is joining each and putting one separator
      between the results; with the one-part case this fixes every part and
      every separator of a join. */
  lemma {:induction false} JoinAppend(xs: seq<string>, ys: seq<string>, sep: string)
    requires xs != [] && ys != []
    ensures Join(xs + ys, sep) == Join(xs, sep) + sep + Join(ys, sep)
    decreases |xs|
  {
    assert (xs + ys)[0] == xs[0];
    if |xs| == 1 {
      assert (xs + ys)[1..] == ys;
    } else {
      assert (xs + ys)[1..] == xs[1..] + ys;
      JoinAppend(xs[1..], ys, sep);
    }
  }

  /** Joining with a whitespace separator gives whitespace only exactly when
      every part is whitespace only. */
  lemma {:induction false} JoinAllSpace(xs: seq<string>, sep: string)
    requires AllSpace(sep)
    ensures AllSpace(Join(xs, sep)) <==> forall k :: 0 <= k < |xs| ==> AllSpace(xs[k])
  {
    if |xs| > 1 {
      JoinAllSpace(xs[1..], sep);
      var rest := Join(xs[1..], sep);
      var j := xs[0] + sep + rest;
      assert j[..|xs[0]|] == xs[0];
      assert j[|xs[0]| + |sep|..] == rest;
      if AllSpace(j) {
        forall k | 0 <= k < |xs| ensures AllSpace(xs[k]) {
          if k == 0 {
            forall m | 0 <= m < |xs[0]| ensures IsSpace(xs[0][m]) { assert j[m] == xs[0][m]; }
          } else {
            assert xs[k] == xs[1..][k - 1];
            forall m | 0 <= m < |rest| ensures IsSpace(rest[m]) { assert j[|xs[0]| + |sep| + m] == rest[m]; }
          }
        }
      }
      if forall k :: 0 <= k < |xs| ==> AllSpace(xs[k]) {
        forall k | 0 <= k < |xs| - 1 ensures AllSpace(xs[1..][k]) { assert xs[1..][k] == xs[k + 1]; }
        forall m | 0 <= m < |j| ensures IsSpace(j[m]) {
          if m < |xs[0]| { assert j[m] == xs[0][m]; }
          else if m < |xs[0]| + |sep| { assert j[m] == sep[m - |xs[0]|]; }
          else { assert j[m] == rest[m - |xs[0]| - |sep|]; }
        }
      }
    }
  }

  /** `needle` occurs in `hay` starting at index `i`. */
  predicate OccursAt(hay: string, needle: string, i: nat) {
    i + |needle| <= |hay| && hay[i..i + |needle|] == needle
  }

  /** The substring test `needle in hay`: true exactly when the needle
      occurs at some index; the empty string occurs in every string. */
  predicate Contains(hay: string, needle: string)
    ensures Contains(hay, needle) <==> exists i: nat :: OccursAt(hay, needle, i)
  {
    OccursShift(hay, needle);
    needle <= hay || (hay != [] && Contains(hay[1..], needle))
  }

  lemma OccursShift(hay: string, needle: string)
    ensures needle <= hay <==> OccursAt(hay, needle, 0)
    ensures hay != [] ==> forall i: nat :: OccursAt(hay[1..], needle, i) <==> OccursAt(hay, needle, i + 1)
    ensures (exists i: nat :: OccursAt(hay, needle, i)) ==>
      OccursAt(hay, needle, 0) || (hay != [] && exists i: nat :: OccursAt(hay[1..], needle, i))
  {
    if hay != [] {
      forall i: nat ensures OccursAt(hay[1..], needle, i) <==> OccursAt(hay, needle, i + 1) {
        if i + 1 + |needle| <= |hay| {
          assert hay[1..][i..i + |needle|] == hay[i + 1..i + 1 + |needle|];
        }
      }
    }
    if exists i: nat :: OccursAt(hay, needle, i) {
      var i: nat :| OccursAt(hay, needle, i);
      if i > 0 {
        assert OccursAt(hay[1..], needle, i - 1);
      }
    }
  }

  /** Every string contains itself. */
  lemma ContainsSelf(s: string)
    ensures Contains(s, s)
  {
    assert OccursAt(s, s, 0);
  }

  /** A string contains its own tail after a prefix. */
  lemma ContainsTail(a: string, b: string)
    ensures Contains(a + b, b)
  {
    assert (a + b)[|a|..|a| + |b|] == b;
    assert OccursAt(a + b, b, |a|);
  }

  /** Extending a string keeps what it contained. */
  lemma ContainsExtend(a: string, b: string, x: string)
    requires Contains(a, x)
    ensures Contains(a + b, x)
  {
    var i: nat :| OccursAt(a, x, i);
    assert (a + b)[i..i + |x|] == a[i..i + |x|];
    assert OccursAt(a + b, x, i);
  }

  /** `c.lower()` for ASCII letters; other characters are left as they are. */
  function LowerChar(c: char): char {
    if 'A' <= c <= 'Z' then (c as int - 'A' as int + 'a' as int) as char else c
  }

  /** `s.lower()`: no upper-case letter remains, and every other character
      is left as it is. */
  function Lower(s: string): (r: string)
    ensures |r| == |s| && forall k :: 0 <= k < |s| ==> r[k] == LowerChar(s[k])
    ensures forall k :: 0 <= k < |r| ==> !IsUpper(r[k])
    ensures forall k :: 0 <= k < |s| && !IsUpper(s[k]) ==> r[k] == s[k]
  {
    seq(|s|, k requires 0 <= k < |s| => LowerChar(s[k]))
  }

  /** Lowering twice is lowering once. */
  lemma LowerIdempotent(s: string)
    ensures Lower(Lower(s)) == Lower(s)
  {
  }

  /** `c.isupper()` for one character, over ASCII. */
  predicate IsUpper(c: char) {
    'A' <= c <= 'Z'
  }

  /** `s.replace("\n", " ")`. */
  function NewlinesToSpaces(s: string): (r: string)
    ensures |r| == |s|
    ensures forall k :: 0 <= k < |s| ==> r[k] == (if s[k] == '\n' then ' ' else s[k])
  {
    seq(|s|, k requires 0 <= k < |s| => if s[k] == '\n' then ' ' else s[k])
  }
}
