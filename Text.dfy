/**
  The string operations the analysis applies to cell values: Python's
  `str.strip()` with no argument and `str.split(sep)` with a non-empty
  literal separator, together with the `sep.join` that undoes a split.
*/
module Text {
  import opened Wrappers

  /** The characters for which Python's `str.isspace()` holds. */
  const Whitespace: set<char> := {
    '\U{0009}', '\U{000A}', '\U{000B}', '\U{000C}', '\U{000D}',
    '\U{001C}', '\U{001D}', '\U{001E}', '\U{001F}', '\U{0020}',
    '\U{0085}', '\U{00A0}', '\U{1680}',
    '\U{2000}', '\U{2001}', '\U{2002}', '\U{2003}', '\U{2004}', '\U{2005}',
    '\U{2006}', '\U{2007}', '\U{2008}', '\U{2009}', '\U{200A}',
    '\U{2028}', '\U{2029}', '\U{202F}', '\U{205F}', '\U{3000}'
  }

  predicate IsSpace(c: char) {
    c in Whitespace
  }

  predicate AllSpace(s: string) {
    forall i :: 0 <= i < |s| ==> IsSpace(s[i])
  }

  /** No leading and no trailing whitespace. */
  predicate IsStripped(s: string) {
    s == [] || (!IsSpace(s[0]) && !IsSpace(s[|s| - 1]))
  }

  /** Drops leading whitespace. */
  function TrimStart(s: string): string {
    if |s| > 0 && IsSpace(s[0]) then TrimStart(s[1..]) else s
  }

  /** Drops trailing whitespace. */
  function TrimEnd(s: string): string {
    if |s| > 0 && IsSpace(s[|s| - 1]) then TrimEnd(s[..|s| - 1]) else s
  }

  /** `s.strip()` */
  function Strip(s: string): string {
    TrimEnd(TrimStart(s))
  }

  /** TrimStart drops the leading run of `m` whitespace characters, and no more. */
  lemma {:induction false} TrimStartSpec(s: string) returns (m: nat)
    ensures m <= |s| && TrimStart(s) == s[m..] && AllSpace(s[..m])
    ensures m == |s| || !IsSpace(s[m])
  {
    if |s| > 0 && IsSpace(s[0]) {
      var m' := TrimStartSpec(s[1..]);
      m := m' + 1;
      assert s[1..][m'..] == s[m..];
      assert s[..m] == [s[0]] + s[1..][..m'];
      AllSpaceCons(s[0], s[1..][..m']);
    } else {
      m := 0;
    }
  }

  /** TrimEnd keeps the first `n` characters, dropping the trailing run of whitespace after them. */
  lemma {:induction false} TrimEndSpec(s: string) returns (n: nat)
    ensures n <= |s| && TrimEnd(s) == s[..n] && AllSpace(s[n..])
    ensures n == 0 || !IsSpace(s[n - 1])
  {
    if |s| > 0 && IsSpace(s[|s| - 1]) {
      var init := s[..|s| - 1];
      n := TrimEndSpec(init);
      assert init[..n] == s[..n];
      assert s[n..] == init[n..] + [s[|s| - 1]];
      AllSpaceSnoc(init[n..], s[|s| - 1]);
    } else {
      n := |s|;
    }
  }

  lemma AllSpaceCons(c: char, s: string)
    requires IsSpace(c) && AllSpace(s)
    ensures AllSpace([c] + s)
  {
    forall i | 0 <= i < |[c] + s| ensures IsSpace(([c] + s)[i]) {
      if i > 0 {
        assert ([c] + s)[i] == s[i - 1];
      }
    }
  }

  lemma AllSpaceSnoc(s: string, c: char)
    requires AllSpace(s) && IsSpace(c)
    ensures AllSpace(s + [c])
  {
    forall i | 0 <= i < |s + [c]| ensures IsSpace((s + [c])[i]) {
      if i < |s| {
        assert (s + [c])[i] == s[i];
      }
    }
  }

  /** The result of `strip()` has no surrounding whitespace. */
  lemma StripIsStripped(s: string)
    ensures IsStripped(Strip(s))
  {
    var m := TrimStartSpec(s);
    var t := s[m..];
    var n := TrimEndSpec(t);
    if n > 0 {
      assert Strip(s)[0] == t[0];
      assert Strip(s)[n - 1] == t[n - 1];
    }
  }

  /** Strip removes exactly surrounding whitespace: `s` is `pre + Strip(s) + post`. */
  lemma StripDecompose(s: string) returns (pre: string, post: string)
    ensures s == pre + Strip(s) + post
    ensures AllSpace(pre) && AllSpace(post)
  {
    var t;
    pre, t := TrimStartSplits(s);
    var r;
    r, post := TrimEndSplits(t);
    assert s == pre + (r + post);
    assert pre + (r + post) == pre + r + post;
  }

  lemma TrimStartSplits(s: string) returns (pre: string, t: string)
    ensures s == pre + t && t == TrimStart(s) && AllSpace(pre)
  {
    var m := TrimStartSpec(s);
    pre, t := s[..m], s[m..];
  }

  lemma TrimEndSplits(t: string) returns (r: string, post: string)
    ensures t == r + post && r == TrimEnd(t) && AllSpace(post)
  {
    var n := TrimEndSpec(t);
    r, post := t[..n], t[n..];
  }

  lemma {:induction false} TrimStartOf(pre: string, t: string)
    requires AllSpace(pre)
    requires t == [] || !IsSpace(t[0])
    ensures TrimStart(pre + t) == t
  {
    if pre != [] {
      assert (pre + t)[1..] == pre[1..] + t;
      TrimStartOf(pre[1..], t);
    }
  }

  lemma {:induction false} TrimEndOf(t: string, post: string)
    requires AllSpace(post)
    requires t == [] || !IsSpace(t[|t| - 1])
    ensures TrimEnd(t + post) == t
  {
    if post != [] {
      assert (t + post)[..|t + post| - 1] == t + post[..|post| - 1];
      TrimEndOf(t, post[..|post| - 1]);
    }
  }

  /** Stripping a stripped token padded with whitespace gives the token back. */
  lemma StripOf(pre: string, t: string, post: string)
    requires AllSpace(pre) && AllSpace(post) && IsStripped(t)
    ensures Strip(pre + t + post) == t
  {
    if t == [] {
      TrimStartOf(pre + post, []);
      assert pre + t + post == pre + post + [];
    } else {
      assert pre + t + post == pre + (t + post);
      TrimStartOf(pre, t + post);
      TrimEndOf(t, post);
    }
  }

  /** A stripped string strips to itself. */
  lemma StripStripped(t: string)
    requires IsStripped(t)
    ensures Strip(t) == t
  {
    StripOf([], t, []);
    assert [] + t + [] == t;
  }

  /** Leading whitespace before a stripped token is removed. */
  lemma StripLeading(pad: string, t: string)
    requires AllSpace(pad) && IsStripped(t)
    ensures Strip(pad + t) == t
  {
    StripOf(pad, t, []);
    assert pad + t + [] == pad + t;
  }

  lemma StripIdempotent(s: string)
    ensures Strip(Strip(s)) == Strip(s)
  {
    StripIsStripped(s);
    StripStripped(Strip(s));
  }

  /** `sep` occurs in `s` starting at index `i`. */
  predicate OccursAt(s: string, sep: string, i: int) {
    0 <= i && i + |sep| <= |s| && s[i..i + |sep|] == sep
  }

  ghost predicate Contains(s: string, sep: string) {
    exists i :: 0 <= i <= |s| && OccursAt(s, sep, i)
  }

  /** The first occurrence of `sep` in `s` at or after `from`, as `str.find` searches. */
  function FindFrom(s: string, sep: string, from: nat): (r: Option<nat>)
    ensures r.Some? ==> from <= r.value && r.value + |sep| <= |s|
    decreases |s| - from
  {
    if from + |sep| > |s| then None
    else if s[from..from + |sep|] == sep then Some(from)
    else FindFrom(s, sep, from + 1)
  }

  /** FindFrom finds the first occurrence at or after `from`, and None means there is none. */
  lemma {:induction false} FindFromSpec(s: string, sep: string, from: nat)
    ensures FindFrom(s, sep, from).Some? ==> OccursAt(s, sep, FindFrom(s, sep, from).value)
    ensures FindFrom(s, sep, from).Some? ==>
      forall k :: from <= k < FindFrom(s, sep, from).value ==> !OccursAt(s, sep, k)
    ensures FindFrom(s, sep, from).None? ==> forall k :: from <= k ==> !OccursAt(s, sep, k)
    decreases |s| - from
  {
    if from + |sep| <= |s| && s[from..from + |sep|] != sep {
      FindFromSpec(s, sep, from + 1);
    }
  }

  /**
    `s.split(sep)`: cut at every non-overlapping occurrence of `sep`, scanning
    left to right. There is always at least one piece; "" gives [""].
  */
  function Split(s: string, sep: string): (r: seq<string>)
    requires |sep| > 0
    ensures |r| >= 1
    decreases |s|
  {
    match FindFrom(s, sep, 0)
    case None => [s]
    case Some(i) => [s[..i]] + Split(s[i + |sep|..], sep)
  }

  lemma SplitAt(s: string, sep: string, i: nat)
    requires |sep| > 0 && FindFrom(s, sep, 0) == Some(i)
    ensures Split(s, sep) == [s[..i]] + Split(s[i + |sep|..], sep)
  {
    match FindFrom(s, sep, 0)
    case Some(j) =>
      assert j == i;
  }

  /** A string without the separator splits into itself alone. */
  lemma SplitWhole(s: string, sep: string)
    requires |sep| > 0 && forall k :: 0 <= k ==> !OccursAt(s, sep, k)
    ensures Split(s, sep) == [s]
  {
    FindFromSpec(s, sep, 0);
  }

  /** No piece of a split contains the separator. */
  lemma {:induction false} SplitPiecesLackSep(s: string, sep: string)
    requires |sep| > 0
    ensures forall k :: 0 <= k < |Split(s, sep)| ==> !Contains(Split(s, sep)[k], sep)
    decreases |s|
  {
    FindFromSpec(s, sep, 0);
    match FindFrom(s, sep, 0)
    case None =>
      assert Split(s, sep) == [s];
    case Some(i) =>
      var head := s[..i];
      var rest := s[i + |sep|..];
      SplitPiecesLackSep(rest, sep);
      PrefixLacksSep(s, sep, i);
      SplitAt(s, sep, i);
      forall k | 0 <= k < |Split(s, sep)| ensures !Contains(Split(s, sep)[k], sep) {
        if k > 0 {
          assert Split(s, sep)[k] == Split(rest, sep)[k - 1];
        }
      }
  }

  /** The text before the first occurrence holds no occurrence. */
  lemma PrefixLacksSep(s: string, sep: string, i: nat)
    requires |sep| > 0 && i <= |s|
    requires forall k :: 0 <= k < i ==> !OccursAt(s, sep, k)
    ensures !Contains(s[..i], sep)
  {
    var head := s[..i];
    forall k | 0 <= k ensures !OccursAt(head, sep, k) {
      if k + |sep| <= |head| {
        assert s[k..k + |sep|] == head[k..k + |sep|];
        assert !OccursAt(s, sep, k);
      }
    }
  }

  /** `sep.join(ts)` */
  function Join(ts: seq<string>, sep: string): string
    requires |ts| >= 1
  {
    if |ts| == 1 then ts[0] else ts[0] + sep + Join(ts[1..], sep)
  }

  lemma JoinCons(head: string, tail: seq<string>, sep: string)
    requires |tail| >= 1
    ensures Join([head] + tail, sep) == head + sep + Join(tail, sep)
  {
    assert ([head] + tail)[1..] == tail;
  }

  /** Joining the pieces of a split restores the string. */
  lemma {:induction false} JoinSplit(s: string, sep: string)
    requires |sep| > 0
    ensures Join(Split(s, sep), sep) == s
    decreases |s|
  {
    FindFromSpec(s, sep, 0);
    match FindFrom(s, sep, 0)
    case None =>
    case Some(i) =>
      var rest := s[i + |sep|..];
      JoinSplit(rest, sep);
      SplitAt(s, sep, i);
      JoinCons(s[..i], Split(rest, sep), sep);
      CutAt(s, sep, i);
  }

  /** A string is the text before an occurrence, the separator and the text after it. */
  lemma CutAt(s: string, sep: string, i: nat)
    requires OccursAt(s, sep, i)
    ensures s == s[..i] + sep + s[i + |sep|..]
  {
    assert s == s[..i] + s[i..i + |sep|] + s[i + |sep|..];
  }

  /**
    Splitting a join gives the pieces back, provided no piece contains the
    separator's first character (so no occurrence straddles a boundary).
  */
  lemma {:induction false} SplitJoin(ts: seq<string>, sep: string)
    requires |sep| > 0 && |ts| >= 1
    requires forall k :: 0 <= k < |ts| ==> sep[0] !in ts[k]
    ensures Split(Join(ts, sep), sep) == ts
  {
    if |ts| == 1 {
      SplitSingle(ts[0], sep);
    } else {
      SplitCons(ts[0], sep, Join(ts[1..], sep));
      SplitJoin(ts[1..], sep);
      assert ts == [ts[0]] + ts[1..];
    }
  }

  /** A first piece free of the separator's first character is split off whole. */
  lemma SplitCons(t: string, sep: string, rest: string)
    requires |sep| > 0 && sep[0] !in t
    ensures Split(t + sep + rest, sep) == [t] + Split(rest, sep)
  {
    var s := t + sep + rest;
    FirstOccurrenceInJoin(t, sep, rest);
    SplitAt(s, sep, |t|);
    assert s[..|t|] == t;
    assert s[|t| + |sep|..] == rest;
  }

  lemma SplitSingle(t: string, sep: string)
    requires |sep| > 0 && sep[0] !in t
    ensures Split(t, sep) == [t]
  {
    forall k | 0 <= k ensures !OccursAt(t, sep, k) {
      if k + |sep| <= |t| {
        assert t[k..k + |sep|][0] == t[k];
      }
    }
    SplitWhole(t, sep);
  }

  /** In `t + sep + rest`, with `sep[0]` absent from `t`, the first occurrence is right after `t`. */
  lemma FirstOccurrenceInJoin(t: string, sep: string, rest: string)
    requires |sep| > 0 && sep[0] !in t
    ensures FindFrom(t + sep + rest, sep, 0) == Some(|t|)
  {
    var s := t + sep + rest;
    FindFromSpec(s, sep, 0);
    assert OccursAt(s, sep, |t|) by {
      assert s[|t|..|t| + |sep|] == sep;
    }
    forall k | 0 <= k < |t| ensures !OccursAt(s, sep, k) {
      assert s[k] == t[k];
      if k + |sep| <= |s| {
        assert s[k..k + |sep|][0] == s[k];
      }
    }
  }
}
