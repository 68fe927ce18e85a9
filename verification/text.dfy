/** String helpers the client relies on: `StringUtils.strip(s, "/")`, Java's
    decimal rendering of an `int`, and splitting at a separator character. */
module Text {
  import opened Wrappers

  /** Java's 32-bit `int`. */
  type Int32 = x: int | -0x8000_0000 <= x < 0x8000_0000

  predicate AllSlashes(s: string) {
    forall c :: c in s ==> c == '/'
  }

  /** Neither the first nor the last character is a `/`. */
  predicate NoEdgeSlash(s: string) {
    |s| == 0 || (s[0] != '/' && s[|s| - 1] != '/')
  }

  /** Drops every leading `/`: the result is a suffix of `s` preceded only by slashes. */
  function StripStart(s: string): (r: string)
    ensures |r| <= |s| && r == s[|s| - |r|..]
    ensures AllSlashes(s[..|s| - |r|])
    ensures |r| == 0 || r[0] != '/'
  {
    if |s| > 0 && s[0] == '/' then
      var r := StripStart(s[1..]);
      assert s[..|s| - |r|] == [s[0]] + s[1..][..|s| - 1 - |r|];
      r
    else s
  }

  /** Drops every trailing `/`: the result is a prefix of `s` followed only by slashes. */
  function StripEnd(s: string): (r: string)
    ensures |r| <= |s| && r == s[..|r|]
    ensures AllSlashes(s[|r|..])
    ensures |r| == 0 || r[|r| - 1] != '/'
  {
    if |s| > 0 && s[|s| - 1] == '/' then
      var r := StripEnd(s[..|s| - 1]);
      assert s[|r|..] == s[..|s| - 1][|r|..] + [s[|s| - 1]];
      r
    else s
  }

  /** `r` sits at offset `i` of `s`, and everything before and after it is a slash. */
  predicate SlashPadded(s: string, i: nat, r: string) {
    i + |r| <= |s| && s[i..i + |r|] == r && AllSlashes(s[..i]) && AllSlashes(s[i + |r|..])
  }

  /** `StringUtils.strip(s, "/")`: leading slashes are removed first, then
      trailing ones. What is left is a contiguous slice of `s` whose margins
      were all slashes; an all-slash input leaves the empty string. */
  function Strip(s: string): (r: string)
    ensures NoEdgeSlash(r)
    ensures exists i :: 0 <= i <= |s| && SlashPadded(s, i, r)
    ensures |r| == 0 <==> AllSlashes(s)
  {
    StripNoEdgeSlash(s);
    StripPadded(s);
    StripEmptyThenSlashes(s);
    SlashesThenStripEmpty(s);
    StripEnd(StripStart(s))
  }

  lemma StripNoEdgeSlash(s: string)
    ensures NoEdgeSlash(StripEnd(StripStart(s)))
  {
    var t := StripStart(s);
    var r := StripEnd(t);
    assert |r| > 0 ==> r[0] == t[0];
  }

  lemma StripPadded(s: string)
    ensures SlashPadded(s, |s| - |StripStart(s)|, StripEnd(StripStart(s)))
  {
    var t := StripStart(s);
    PaddedBySlashes(s, t, StripEnd(t));
  }

  /** A prefix `r` of a suffix `t` of `s`, with slashes before `t` and after
      `r`, is slash-padded in `s`. */
  lemma PaddedBySlashes(s: string, t: string, r: string)
    requires |t| <= |s| && t == s[|s| - |t|..] && AllSlashes(s[..|s| - |t|])
    requires |r| <= |t| && r == t[..|r|] && AllSlashes(t[|r|..])
    ensures SlashPadded(s, |s| - |t|, r)
  {
    var i := |s| - |t|;
    assert s[i..i + |r|] == s[i..][..|r|];
    assert s[i + |r|..] == t[|r|..];
  }

  lemma StripEmptyThenSlashes(s: string)
    ensures |StripEnd(StripStart(s))| == 0 ==> AllSlashes(s)
  {
    var t := StripStart(s);
    var i := |s| - |t|;
    assert t[0..] == t;
    assert |StripEnd(t)| == 0 ==> AllSlashes(t);
    assert |t| > 0 ==> t[0] in t && t[0] != '/';
    assert AllSlashes(t) ==> |t| == 0;
    assert |t| == 0 ==> s[..i] == s;
  }

  lemma SlashesThenStripEmpty(s: string)
    ensures AllSlashes(s) ==> |StripEnd(StripStart(s))| == 0
  {
    var t := StripStart(s);
    var r := StripEnd(t);
    var i := |s| - |t|;
    assert |r| > 0 ==> r[0] == s[i] && s[i] in s;
  }

  lemma SlashesBefore(s: string, i: nat, k: nat)
    requires i <= |s| && AllSlashes(s[..i])
    ensures k < i ==> s[k] == '/'
  {
    if k < i {
      assert s[..i][k] in s[..i];
    }
  }

  lemma SlashesFrom(s: string, j: nat, k: nat)
    requires j <= |s| && AllSlashes(s[j..])
    ensures j <= k < |s| ==> s[k] == '/'
  {
    if j <= k < |s| {
      assert s[j..][k - j] in s[j..];
    }
  }

  lemma PaddedAt(s: string, i: nat, r: string, k: nat)
    requires SlashPadded(s, i, r)
    ensures k < |r| ==> s[i + k] == r[k]
  {
    if k < |r| {
      assert s[i + k] == s[i..i + |r|][k];
    }
  }

  /** Two slash-padded slices without edge slashes cannot start at different offsets. */
  lemma PaddedStartsAgree(s: string, i1: nat, r1: string, i2: nat, r2: string)
    requires SlashPadded(s, i1, r1) && SlashPadded(s, i2, r2)
    requires |r1| > 0 && NoEdgeSlash(r1)
    ensures i2 <= i1
  {
    SlashesBefore(s, i2, i1);
    PaddedAt(s, i1, r1, 0);
  }

  /** ... nor end at different offsets. */
  lemma PaddedEndsAgree(s: string, i1: nat, r1: string, i2: nat, r2: string)
    requires SlashPadded(s, i1, r1) && SlashPadded(s, i2, r2)
    requires |r2| > 0 && NoEdgeSlash(r2) && i1 <= i2 + |r2| - 1
    ensures i2 + |r2| <= i1 + |r1|
  {
    var e := i2 + |r2| - 1;
    SlashesFrom(s, i1 + |r1|, e);
    PaddedAt(s, i2, r2, |r2| - 1);
  }

  /** Strip is determined by its contract: any slice of `s` that loses only
      slashes on either side and has no slash at its edges is `Strip(s)`. */
  lemma StripUnique(s: string, i: nat, j: nat)
    requires i <= j <= |s|
    requires AllSlashes(s[..i]) && AllSlashes(s[j..])
    requires NoEdgeSlash(s[i..j])
    ensures Strip(s) == s[i..j]
  {
    if i < j {
      StripUniqueNonEmpty(s, i, j);
    } else {
      SlashMarginsOnly(s, i);
    }
  }

  lemma StripUniqueNonEmpty(s: string, i: nat, j: nat)
    requires i < j <= |s|
    requires AllSlashes(s[..i]) && AllSlashes(s[j..])
    requires NoEdgeSlash(s[i..j])
    ensures Strip(s) == s[i..j]
  {
    assert SlashPadded(s, i, s[i..j]);
    PaddedTrimUnique(s, Strip(s), i, s[i..j]);
  }

  /** Any trimming with Strip's contract agrees with a non-empty slash-padded
      slice without edge slashes. */
  lemma PaddedTrimUnique(s: string, r: string, i: nat, q: string)
    requires exists a :: 0 <= a <= |s| && SlashPadded(s, a, r)
    requires NoEdgeSlash(r) && (|r| == 0 <==> AllSlashes(s))
    requires SlashPadded(s, i, q) && |q| > 0 && NoEdgeSlash(q)
    ensures r == q
  {
    var a :| 0 <= a <= |s| && SlashPadded(s, a, r);
    NotAllSlashes(s, i, q);
    PaddedUnique(s, a, r, i, q);
  }

  /** A slash-padded slice that does not start with a slash shows the text is
      not all slashes. */
  lemma NotAllSlashes(s: string, i: nat, q: string)
    requires SlashPadded(s, i, q) && |q| > 0 && q[0] != '/'
    ensures !AllSlashes(s)
  {
    PaddedAt(s, i, q, 0);
    assert s[i] in s;
  }

  /** Two non-empty slash-padded slices without edge slashes coincide. */
  lemma PaddedUnique(s: string, a: nat, r: string, i: nat, q: string)
    requires SlashPadded(s, a, r) && SlashPadded(s, i, q)
    requires |r| > 0 && NoEdgeSlash(r) && |q| > 0 && NoEdgeSlash(q)
    ensures r == q
  {
    PaddedStartsAgree(s, a, r, i, q);
    PaddedStartsAgree(s, i, q, a, r);
    PaddedEndsAgree(s, a, r, i, q);
    PaddedEndsAgree(s, i, q, a, r);
  }

  lemma SlashMarginsOnly(s: string, i: nat)
    requires i <= |s|
    requires AllSlashes(s[..i]) && AllSlashes(s[i..])
    ensures AllSlashes(s)
  {
    assert s == s[..i] + s[i..];
  }

  /** Stripping a second time changes nothing. */
  lemma StripIdempotent(s: string)
    ensures Strip(Strip(s)) == Strip(s)
  {
    var r := Strip(s);
    assert r[0..|r|] == r;
    StripUnique(r, 0, |r|);
  }

  predicate IsDigit(c: char) {
    '0' <= c <= '9'
  }

  predicate AllDigits(s: string) {
    forall i :: 0 <= i < |s| ==> IsDigit(s[i])
  }

  function DigitChar(d: nat): (c: char)
    requires d < 10
    ensures IsDigit(c)
  {
    (d + '0' as int) as char
  }

  /** Decimal digits of `n`, most significant first, without leading zeros. */
  function NatText(n: nat): (r: string)
    ensures |r| > 0 && AllDigits(r)
    ensures r[0] == '0' ==> n == 0
  {
    if n < 10 then [DigitChar(n)] else NatText(n / 10) + [DigitChar(n % 10)]
  }

  /** Java's `"" + n` for an `int` (`Integer.toString`): a `-` sign for negatives. */
  function IntText(n: Int32): string {
    if n < 0 then "-" + NatText(-(n as int)) else NatText(n)
  }

  /** The value of a string of decimal digits. */
  function DigitsValue(s: string): nat
    requires AllDigits(s)
  {
    if |s| == 0 then 0 else 10 * DigitsValue(s[..|s| - 1]) + (s[|s| - 1] as int - '0' as int)
  }

  /** Reads an optionally negative decimal integer; absent unless the whole
      string is one. */
  function ParseInt(s: string): Option<int> {
    if |s| > 0 && s[0] == '-' && |s| > 1 && AllDigits(s[1..]) then Some(-(DigitsValue(s[1..]) as int))
    else if |s| > 0 && AllDigits(s) then Some(DigitsValue(s))
    else None
  }

  lemma {:induction false} NatTextValue(n: nat)
    ensures DigitsValue(NatText(n)) == n
  {
    if n >= 10 {
      NatTextValue(n / 10);
      var t := NatText(n);
      assert t[..|t| - 1] == NatText(n / 10);
    }
  }

  /** The decimal rendering of an `int` reads back as the same number. */
  lemma IntTextRoundTrip(n: Int32)
    ensures ParseInt(IntText(n)) == Some(n)
  {
    NatTextValue(if n < 0 then -(n as int) else n);
    if n < 0 {
      assert IntText(n)[1..] == NatText(-(n as int));
    }
  }

  /** Position of the first `c` in `s`. */
  function IndexOf(s: string, c: char): (i: nat)
    requires c in s
    ensures i < |s| && s[i] == c && c !in s[..i]
  {
    if s[0] == c then 0 else 1 + IndexOf(s[1..], c)
  }

  /** The pieces of `s` between occurrences of `sep`. */
  function SplitOn(s: string, sep: char): (r: seq<string>)
    ensures |r| > 0
    ensures forall k :: 0 <= k < |r| ==> sep !in r[k]
    decreases |s|
  {
    if sep in s then
      var i := IndexOf(s, sep);
      [s[..i]] + SplitOn(s[i + 1..], sep)
    else [s]
  }

  /** In `a + [c] + b` with no `c` inside `a`, the first `c` is the one after `a`. */
  lemma IndexOfAfter(a: string, c: char, b: string)
    requires c !in a
    ensures IndexOf(a + [c] + b, c) == |a|
  {
    var s := a + [c] + b;
    assert s[|a|] == c;
    assert s[..|a|] == a;
    var i := IndexOf(s, c);
    assert i <= |a| ==> s[..i] == a[..i];
  }

  /** A piece without separators is not split. */
  lemma SplitOnNone(s: string, sep: char)
    requires sep !in s
    ensures SplitOn(s, sep) == [s]
  {
  }

  /** Splitting after a separator-free piece yields that piece first. */
  lemma SplitOnAfter(a: string, sep: char, b: string)
    requires sep !in a
    ensures SplitOn(a + [sep] + b, sep) == [a] + SplitOn(b, sep)
  {
    var s := a + [sep] + b;
    IndexOfAfter(a, sep, b);
    assert s[..|a|] == a;
    assert s[|a| + 1..] == b;
  }
}
