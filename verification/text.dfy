/**
 The two string operations the header check applies to a first cell:
 `StringUtils.trimToEmpty` (Java's `String.trim` with `null` mapped to the
 empty string) and `String.toUpperCase`, restricted to ASCII letters.
 */
module Text {
  import opened Wrappers

  /** Java's `String.trim` removes every char whose code is at most U+0020. */
  predicate IsTrimmable(c: char) {
    c <= ' '
  }

  predicate AllTrimmable(s: string) {
    forall k :: 0 <= k < |s| ==> IsTrimmable(s[k])
  }

  /** The first index at or after `st` that holds a char `trim` keeps. */
  function SkipLeading(s: string, st: nat): (i: nat)
    requires st <= |s|
    ensures st <= i <= |s|
    ensures forall k :: st <= k < i ==> IsTrimmable(s[k])
    ensures i < |s| ==> !IsTrimmable(s[i])
    decreases |s| - st
  {
    if st < |s| && IsTrimmable(s[st]) then SkipLeading(s, st + 1) else st
  }

  /** The end of `s[st..len]` once trailing trimmable chars are dropped. */
  function SkipTrailing(s: string, st: nat, len: nat): (j: nat)
    requires st <= len <= |s|
    ensures st <= j <= len
    ensures forall k :: j <= k < len ==> IsTrimmable(s[k])
    ensures st < j ==> !IsTrimmable(s[j - 1])
    decreases len
  {
    if st < len && IsTrimmable(s[len - 1]) then SkipTrailing(s, st, len - 1) else len
  }

  /** Java's `String.trim`: drop leading, then trailing, trimmable chars. */
  function Trim(s: string): (r: string)
    ensures |r| <= |s|
    ensures r != [] ==> !IsTrimmable(r[0]) && !IsTrimmable(r[|r| - 1])
  {
    var st := SkipLeading(s, 0);
    s[st..SkipTrailing(s, st, |s|)]
  }

  /** `StringUtils.trimToEmpty`: a `null` string trims to the empty string. */
  function TrimToEmpty(s: Option<string>): (r: string)
    ensures Trim(r) == r
    ensures s.None? ==> r == ""
    ensures s.Some? ==> |r| <= |s.value|
  {
    match s
    case None => ""
    case Some(str) => TrimIdempotent(str); Trim(str)
  }

  /** ASCII uppercasing of one char; every other char is left alone. */
  function UpperChar(c: char): char {
    if 'a' <= c <= 'z' then (c as int - 32) as char else c
  }

  /** Java's `toUpperCase`, restricted to ASCII letters. */
  function Upper(s: string): string {
    seq(|s|, k requires 0 <= k < |s| => UpperChar(s[k]))
  }

  /** Two chars that are equal once ASCII letter case is ignored. */
  predicate SameLetterIgnoringCase(x: char, y: char) {
    || x == y
    || ('a' <= x <= 'z' && y as int == x as int - 32)
    || ('A' <= x <= 'Z' && y as int == x as int + 32)
  }

  /** Two strings that differ at most in the case of ASCII letters. */
  predicate EqualIgnoringCase(a: string, b: string) {
    |a| == |b| && forall k :: 0 <= k < |a| ==> SameLetterIgnoringCase(a[k], b[k])
  }

  /**
   Trim removes exactly the maximal trimmable padding: for any split of `s`
   into a trimmable prefix, a core that neither starts nor ends with a
   trimmable char, and a trimmable suffix, `Trim(s)` is that core.
   */
  lemma TrimUnique(s: string, i: nat, j: nat)
    requires i <= j <= |s|
    requires AllTrimmable(s[..i]) && AllTrimmable(s[j..])
    requires i < j ==> !IsTrimmable(s[i]) && !IsTrimmable(s[j - 1])
    ensures Trim(s) == s[i..j]
  {
    var st := SkipLeading(s, 0);
    var e := SkipTrailing(s, st, |s|);
    assert Trim(s) == s[st..e];
    forall k | 0 <= k < i ensures IsTrimmable(s[k]) {
      assert s[..i][k] == s[k];
    }
    forall k | j <= k < |s| ensures IsTrimmable(s[k]) {
      assert s[j..][k - j] == s[k];
    }
    if i < j {
      assert st == i;
      assert e == j;
    } else {
      assert st == |s|;
      assert e == |s|;
    }
  }

  lemma AllTrimmableConcat(a: string, b: string)
    requires AllTrimmable(a) && AllTrimmable(b)
    ensures AllTrimmable(a + b)
  {
    forall k | 0 <= k < |a + b| ensures IsTrimmable((a + b)[k]) {
      if k >= |a| {
        assert (a + b)[k] == b[k - |a|];
      }
    }
  }

  /** How slices of `p + s + q` at offsets into `s` split up. */
  lemma PaddedSlices(p: string, s: string, q: string, i: nat, j: nat)
    requires i <= j <= |s|
    ensures (p + s + q)[..|p| + i] == p + s[..i]
    ensures (p + s + q)[|p| + i..|p| + j] == s[i..j]
    ensures (p + s + q)[|p| + j..] == s[j..] + q
  {
    var t := p + s + q;
    assert t == p + (s[..i] + (s[i..j] + (s[j..] + q)));
  }

  /** Trim drops the padding `p` and `q` wrapped around `s`. */
  lemma TrimIgnoresPadding(p: string, s: string, q: string)
    requires AllTrimmable(p) && AllTrimmable(q)
    ensures Trim(p + s + q) == Trim(s)
  {
    var st := SkipLeading(s, 0);
    var e := SkipTrailing(s, st, |s|);
    assert AllTrimmable(s[..st]);
    assert AllTrimmable(s[e..]) by {
      forall k | 0 <= k < |s[e..]| ensures IsTrimmable(s[e..][k]) {
        assert s[e..][k] == s[e + k];
      }
    }
    AllTrimmableConcat(p, s[..st]);
    AllTrimmableConcat(s[e..], q);
    PaddedSlices(p, s, q, st, e);
    TrimUnique(p + s + q, |p| + st, |p| + e);
  }

  /** Uppercasing a slice is slicing the uppercased string. */
  lemma UpperSlice(s: string, i: nat, j: nat)
    requires i <= j <= |s|
    ensures Upper(s[i..j]) == Upper(s)[i..j]
  {
    var a := Upper(s[i..j]);
    var b := Upper(s)[i..j];
    assert |a| == |b|;
    forall k | 0 <= k < |a| ensures a[k] == b[k] {
      assert s[i..j][k] == s[i + k];
    }
  }

  /** Uppercasing and trimming commute, since uppercasing never turns a kept char into a trimmable one or back. */
  lemma UpperTrimCommute(s: string)
    ensures Upper(Trim(s)) == Trim(Upper(s))
  {
    var st := SkipLeading(s, 0);
    var e := SkipTrailing(s, st, |s|);
    var u := Upper(s);
    var head := u[..st];
    forall k | 0 <= k < |head| ensures IsTrimmable(head[k]) {
      assert head[k] == UpperChar(s[k]);
    }
    var tail := u[e..];
    forall k | 0 <= k < |tail| ensures IsTrimmable(tail[k]) {
      assert tail[k] == UpperChar(s[e + k]);
    }
    if st < e {
      assert u[st] == UpperChar(s[st]) && u[e - 1] == UpperChar(s[e - 1]);
    }
    UpperSlice(s, st, e);
    TrimUnique(u, st, e);
  }

  /** Uppercasing yields a case variant of its input with no lowercase ASCII letter left. */
  lemma UpperIsCaseVariant(s: string)
    ensures EqualIgnoringCase(s, Upper(s))
    ensures forall k :: 0 <= k < |Upper(s)| ==> !('a' <= Upper(s)[k] <= 'z')
  {
  }

  /** Strings equal up to ASCII case have the same uppercase form. */
  lemma EqualIgnoringCaseUpper(a: string, b: string)
    requires EqualIgnoringCase(a, b)
    ensures Upper(a) == Upper(b)
  {
  }

  /** Trimming twice trims nothing more. */
  lemma TrimIdempotent(s: string)
    ensures Trim(Trim(s)) == Trim(s)
  {
    var r := Trim(s);
    assert r[..0] == [] && r[|r|..] == [];
    TrimUnique(r, 0, |r|);
  }

  /** Uppercasing twice changes nothing more. */
  lemma UpperIdempotent(s: string)
    ensures Upper(Upper(s)) == Upper(s)
  {
  }
}
