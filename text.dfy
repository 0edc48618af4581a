/** The string operations of Python's `str` that the core relies on:
    `isdigit`, `int`, `str` of an integer, `split`, `strip` and `startswith`. */
module Text {
  import opened Common

  predicate IsDigit(c: char) { '0' <= c <= '9' }

  predicate AllDigits(s: string) { forall i :: 0 <= i < |s| ==> IsDigit(s[i]) }

  /** `s.isdigit()` for ASCII text: non-empty and made of digits only. */
  predicate IsDigitString(s: string) { s != [] && AllDigits(s) }

  function DigitValue(c: char): nat
    requires IsDigit(c)
  {
    c as int - '0' as int
  }

  function DigitChar(d: nat): char
    requires d < 10
  {
    ('0' as int + d) as char
  }

  /** `int(s)` for a string of ASCII digits: a leading zero adds nothing. */
  function ParseDecimal(s: string): (n: nat)
    requires AllDigits(s)
    ensures s != [] && s[0] == '0' ==> n == ParseDecimal(s[1..])
  {
    if s == [] then 0
    else
      var init := s[..|s| - 1];
      assert |s| > 1 ==> init[1..] == s[1..][..|s| - 2];
      ParseDecimal(init) * 10 + DigitValue(s[|s| - 1])
  }

  /** `str(n)` for a non-negative integer: no sign, no leading zero. */
  function Decimal(n: nat): (s: string)
    ensures IsDigitString(s)
    ensures s[0] == '0' ==> n == 0
  {
    if n < 10 then [DigitChar(n)] else Decimal(n / 10) + [DigitChar(n % 10)]
  }

  /** `str(i)` for any integer. */
  function SignedDecimal(i: int): string
  {
    if i < 0 then "-" + Decimal(-i) else Decimal(i)
  }

  /** Reading back what `str` wrote gives the number again. */
  lemma {:induction false} DecimalRoundTrip(n: nat)
    ensures ParseDecimal(Decimal(n)) == n
  {
    if n >= 10 {
      var s := Decimal(n);
      assert s[..|s| - 1] == Decimal(n / 10);
      DecimalRoundTrip(n / 10);
    }
  }

  lemma DecimalInjective(a: nat, b: nat)
    requires Decimal(a) == Decimal(b)
    ensures a == b
  {
    DecimalRoundTrip(a);
    DecimalRoundTrip(b);
  }

  /** Index of the first occurrence of `d` in `s`. */
  function IndexOf(s: string, d: char): (i: nat)
    requires d in s
    ensures i < |s| && s[i] == d && d !in s[..i]
  {
    if s[0] == d then 0 else 1 + IndexOf(s[1..], d)
  }

  /** `s.split(d)` for a one-character separator. */
  function Split(s: string, d: char): (parts: seq<string>)
    ensures |parts| >= 1
    ensures forall k :: 0 <= k < |parts| ==> d !in parts[k]
    decreases |s|
  {
    if d !in s then [s]
    else
      var i := IndexOf(s, d);
      [s[..i]] + Split(s[i + 1..], d)
  }

  /** `d.join(parts)`. */
  function JoinWith(parts: seq<string>, d: char): string
    requires |parts| >= 1
  {
    if |parts| == 1 then parts[0] else parts[0] + [d] + JoinWith(parts[1..], d)
  }

  /** Joining `n` non-empty parts gives at least `2n - 1` characters. */
  lemma {:induction false} JoinNonEmptyLength(parts: seq<string>, d: char)
    requires |parts| >= 1
    requires forall k :: 0 <= k < |parts| ==> parts[k] != []
    ensures |JoinWith(parts, d)| >= 2 * |parts| - 1
    decreases |parts|
  {
    if |parts| > 1 {
      JoinNonEmptyLength(parts[1..], d);
    }
  }

  lemma JoinCons(p: string, ps: seq<string>, d: char)
    requires |ps| >= 1
    ensures JoinWith([p] + ps, d) == p + [d] + JoinWith(ps, d)
  {
    assert ([p] + ps)[1..] == ps;
  }

  lemma Around(s: string, i: nat)
    requires i < |s|
    ensures s == s[..i] + [s[i]] + s[i + 1..]
  {
  }

  /** One step of `JoinSplit`: the first part, the separator, and the rest
      already restored. */
  lemma JoinSplitStep(s: string, p: string, d: char, rest: string)
    requires s == p + [d] + rest
    requires d !in p
    requires JoinWith(Split(rest, d), d) == rest
    ensures JoinWith(Split(s, d), d) == s
  {
    SplitAfterFirst(p, d, rest);
    JoinCons(p, Split(rest, d), d);
  }

  /** Joining the parts of a split restores the string. */
  lemma {:induction false} JoinSplit(s: string, d: char)
    ensures JoinWith(Split(s, d), d) == s
    decreases |s|
  {
    if d in s {
      var i := IndexOf(s, d);
      JoinSplit(s[i + 1..], d);
      Around(s, i);
      JoinSplitStep(s, s[..i], d, s[i + 1..]);
    }
  }

  /** The first separator in `p + [d] + rest` is the one after `p` when `p`
      has none. */
  lemma {:induction false} IndexOfAfter(p: string, d: char, rest: string)
    requires d !in p
    ensures d in p + [d] + rest && IndexOf(p + [d] + rest, d) == |p|
  {
    var s := p + [d] + rest;
    assert s[|p|] == d;
    if p != [] {
      IndexOfAfter(p[1..], d, rest);
      assert s[1..] == p[1..] + [d] + rest;
    }
  }

  /** Splitting at the first separator, when `p` has none, yields `p` first. */
  lemma SplitAfterFirst(p: string, d: char, rest: string)
    requires d !in p
    ensures Split(p + [d] + rest, d) == [p] + Split(rest, d)
  {
    var s := p + [d] + rest;
    IndexOfAfter(p, d, rest);
    assert s[..|p|] == p;
    assert s[|p| + 1..] == rest;
  }

  /** Splitting a join of separator-free parts gives the parts back. */
  lemma {:induction false} SplitJoin(parts: seq<string>, d: char)
    requires |parts| >= 1
    requires forall k :: 0 <= k < |parts| ==> d !in parts[k]
    ensures Split(JoinWith(parts, d), d) == parts
  {
    if |parts| > 1 {
      var p0, tail := parts[0], parts[1..];
      forall k | 0 <= k < |tail|
        ensures d !in tail[k]
      {
        assert tail[k] == parts[k + 1];
      }
      SplitJoin(tail, d);
      SplitAfterFirst(p0, d, JoinWith(tail, d));
      assert [p0] + tail == parts;
    }
  }

  /** Index of the first occurrence of the text `t` in `s` at or after `i`, if any. */
  function FindFrom(s: string, t: string, i: nat): (r: Option<nat>)
    requires i <= |s|
    ensures r.Some? ==> i <= r.value && r.value + |t| <= |s| && s[r.value..r.value + |t|] == t
    ensures r.Some? ==> t <= s[r.value..]
    ensures r.Some? ==> forall k :: i <= k < r.value ==> !(t <= s[k..])
    ensures r.None? ==> forall k :: i <= k <= |s| ==> !(t <= s[k..])
    decreases |s| - i
  {
    if t <= s[i..] then
      assert s[i..][..|t|] == s[i..i + |t|];
      Some(i)
    else if i == |s| then None
    else FindFrom(s, t, i + 1)
  }

  /** Index of the first occurrence of the text `t` in `s`, if any. */
  function Find(s: string, t: string): (r: Option<nat>)
    ensures r.Some? ==> r.value + |t| <= |s| && s[r.value..r.value + |t|] == t
    ensures r.Some? ==> t <= s[r.value..]
    ensures r.Some? ==> forall k :: 0 <= k < r.value ==> !(t <= s[k..])
    ensures r.None? ==> forall k :: 0 <= k <= |s| ==> !(t <= s[k..])
  {
    FindFrom(s, t, 0)
  }

  /** `s.split(sep)[0]`: the text before the first occurrence of `sep`. */
  function FirstField(s: string, sep: string): (f: string)
    requires sep != []
    ensures f <= s
    ensures forall k :: 0 <= k < |f| ==> !(sep <= s[k..])
    ensures f == s <==> forall k :: 0 <= k <= |s| ==> !(sep <= s[k..])
    ensures f != s ==> sep <= s[|f|..]
  {
    match Find(s, sep)
    case None => s
    case Some(i) => s[..i]
  }

  /** Python's `str.isspace` for one character. */
  predicate IsSpace(c: char)
  {
    var k := c as int;
    k == 32 || 9 <= k <= 13 || 28 <= k <= 31 || k == 0x85 || k == 0xA0 || k == 0x1680
    || 0x2000 <= k <= 0x200A || k == 0x2028 || k == 0x2029 || k == 0x202F || k == 0x205F
    || k == 0x3000
  }

  /** The end of the run of white space that starts at `i`. */
  function SpaceRunEnd(s: string, i: nat): (n: nat)
    requires i <= |s|
    ensures i <= n <= |s|
    ensures forall k :: i <= k < n ==> IsSpace(s[k])
    ensures n == |s| || !IsSpace(s[n])
    decreases |s| - i
  {
    if i < |s| && IsSpace(s[i]) then SpaceRunEnd(s, i + 1) else i
  }

  /** The start of the run of white space that ends at `j`, not going below `lo`. */
  function SpaceRunStart(s: string, lo: nat, j: nat): (n: nat)
    requires lo <= j <= |s|
    ensures lo <= n <= j
    ensures forall k :: n <= k < j ==> IsSpace(s[k])
    ensures n == lo || !IsSpace(s[n - 1])
  {
    if j > lo && IsSpace(s[j - 1]) then SpaceRunStart(s, lo, j - 1) else j
  }

  /** `s.strip()`: the slice of `s` between its leading and trailing white space;
      it is empty exactly when `s` is all white space. */
  function Strip(s: string): (r: string)
    ensures |r| <= |s|
    ensures r == [] || (!IsSpace(r[0]) && !IsSpace(r[|r| - 1]))
    ensures r == [] <==> forall k :: 0 <= k < |s| ==> IsSpace(s[k])
    ensures exists i, j :: StripsTo(s, i, j, r)
  {
    var i := SpaceRunEnd(s, 0);
    var j := SpaceRunStart(s, i, |s|);
    assert StripsTo(s, i, j, s[i..j]);
    s[i..j]
  }

  /** `r` is `s[i..j]` and everything of `s` outside that slice is white space. */
  ghost predicate StripsTo(s: string, i: int, j: int, r: string) {
    0 <= i <= j <= |s| && r == s[i..j] &&
    (forall k :: 0 <= k < i ==> IsSpace(s[k])) &&
    (forall k :: j <= k < |s| ==> IsSpace(s[k]))
  }
}
