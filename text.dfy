/** The Python `str` operations the pipeline relies on, over Dafny strings
    (sequences of Unicode scalar values): substring search (`sub in s`,
    `s.split(sub)[0]`, `s.split(sub)[1]`), `s.split(c)` on one character,
    `s.strip()`, and the decimal digits behind `int()` and `'%d' % n`. */
module Text {

  datatype Option<T> = None | Some(value: T)

  // ---------------------------------------------------------------------
  // Substring search
  // ---------------------------------------------------------------------

  /** `sub` occurs in `s` starting at index `i`. */
  predicate OccursAt(s: string, sub: string, i: nat) {
    i + |sub| <= |s| && s[i..i + |sub|] == sub
  }

  /** A search result moved `n` places to the right. */
  function Shift(r: Option<nat>, n: nat): (q: Option<nat>)
    ensures q.Some? <==> r.Some?
    ensures q.Some? ==> q.value == r.value + n
  {
    match r
    case None => None
    case Some(k) => Some(k + n)
  }

  lemma ShiftTwice(r: Option<nat>, m: nat, n: nat)
    ensures Shift(Shift(r, m), n) == Shift(r, m + n)
  {
  }

  /** Index of the first occurrence of `sub` in `s` (Python's `s.find(sub)`,
      with `None` standing for -1). */
  function IndexOf(s: string, sub: string): (r: Option<nat>)
    ensures r.Some? ==> OccursAt(s, sub, r.value)
    decreases |s|
  {
    if |s| < |sub| then None
    else if s[..|sub|] == sub then Some(0)
    else
      var r := IndexOf(s[1..], sub);
      assert r.Some? ==> s[r.value + 1..r.value + 1 + |sub|] == s[1..][r.value..r.value + |sub|];
      Shift(r, 1)
  }

  /** The search finds the first occurrence, and finds none only when there
      is none. */
  lemma {:induction false} IndexOfFirst(s: string, sub: string)
    ensures IndexOf(s, sub).Some? ==> forall i: nat :: i < IndexOf(s, sub).value ==> !OccursAt(s, sub, i)
    ensures IndexOf(s, sub).None? ==> forall i: nat :: !OccursAt(s, sub, i)
    decreases |s|
  {
    if |s| < |sub| {
    } else if s[..|sub|] == sub {
    } else {
      assert !OccursAt(s, sub, 0) by {
        assert s[0..|sub|] == s[..|sub|];
      }
      OccursAtShift(s, sub);
      IndexOfFirst(s[1..], sub);
    }
  }

  lemma OccursAtShift(s: string, sub: string)
    requires |s| > 0
    ensures forall i: nat :: i > 0 ==> (OccursAt(s, sub, i) <==> OccursAt(s[1..], sub, i - 1))
  {
    forall i: nat | i > 0 ensures OccursAt(s, sub, i) <==> OccursAt(s[1..], sub, i - 1) {
      if i + |sub| <= |s| {
        var x, y := s[i..i + |sub|], s[1..][i - 1..i - 1 + |sub|];
        assert forall j :: 0 <= j < |x| ==> x[j] == y[j];
        assert x == y;
      }
    }
  }

  /** Python's `sub in s`. */
  predicate Contains(s: string, sub: string) {
    IndexOf(s, sub).Some?
  }

  /** Python's `s.split(sub)[0]`: everything before the first occurrence of
      `sub`, or all of `s` when there is none. */
  function Before(s: string, sub: string): (r: string)
    ensures |r| <= |s| && r == s[..|r|]
    ensures Contains(s, sub) ==> OccursAt(s, sub, |r|)
    ensures forall i: nat :: i < |r| ==> !OccursAt(s, sub, i)
    ensures !Contains(s, sub) ==> r == s
  {
    IndexOfFirst(s, sub);
    match IndexOf(s, sub)
    case Some(k) => s[..k]
    case None => s
  }

  /** Everything after the first occurrence of `sub`; together with `Before`
      this is Python's `s.split(sub, 1)`, so `Before(After(s, sub), sub)` is
      `s.split(sub)[1]`. */
  function After(s: string, sub: string): (r: string)
    requires Contains(s, sub)
    ensures s == Before(s, sub) + sub + r
  {
    var k := IndexOf(s, sub).value;
    assert s == s[..k] + s[k..k + |sub|] + s[k + |sub|..];
    s[k + |sub|..]
  }

  /** Searching `a + rest` for a non-empty `sub` whose first character does not
      occur in `a` finds the first occurrence in `rest`, shifted by `|a|`. */
  lemma {:induction false} IndexOfSkip(a: string, rest: string, sub: string)
    requires |sub| > 0 && sub[0] !in a
    ensures IndexOf(a + rest, sub) == Shift(IndexOf(rest, sub), |a|)
    decreases |a|
  {
    if a == [] {
      assert a + rest == rest;
    } else {
      var s := a + rest;
      assert s[1..] == a[1..] + rest;
      IndexOfSkip(a[1..], rest, sub);
      if |s| < |sub| {
        assert IndexOf(rest, sub) == None;
      } else {
        assert s[..|sub|] != sub by {
          assert s[..|sub|][0] == a[0];
        }
        assert IndexOf(s, sub) == Shift(IndexOf(s[1..], sub), 1);
        ShiftTwice(IndexOf(rest, sub), |a| - 1, 1);
      }
    }
  }

  /** The first occurrence of a separator placed right after a prefix that
      cannot start it is that separator: `(a + sub + b).split(sub)[0] == a`. */
  lemma BeforeAtSeparator(a: string, sub: string, b: string)
    requires |sub| > 0 && sub[0] !in a
    ensures Contains(a + sub + b, sub)
    ensures Before(a + sub + b, sub) == a
    ensures After(a + sub + b, sub) == b
  {
    assert a + sub + b == a + (sub + b);
    IndexOfSkip(a, sub + b, sub);
    assert (sub + b)[..|sub|] == sub;
    var s := a + sub + b;
    assert s[|a| + |sub|..] == b;
  }

  /** A prefix that cannot start `sub` survives `split(sub)[0]`. */
  lemma BeforeKeepsPrefix(a: string, rest: string, sub: string)
    requires |sub| > 0 && sub[0] !in a
    ensures exists t :: Before(a + rest, sub) == a + t
  {
    IndexOfSkip(a, rest, sub);
    var s := a + rest;
    match IndexOf(rest, sub)
    case None =>
      assert Before(s, sub) == a + rest;
    case Some(k) =>
      assert Before(s, sub) == s[..k + |a|];
      assert s[..k + |a|] == a + rest[..k];
  }

  // ---------------------------------------------------------------------
  // Splitting on one character
  // ---------------------------------------------------------------------

  /** Python's `s.split(c)`: the maximal pieces between occurrences of `c`. */
  function Split(s: string, c: char): (r: seq<string>)
    ensures |r| > 0
    decreases |s|
  {
    match IndexOf(s, [c])
    case None => [s]
    case Some(k) => [s[..k]] + Split(s[k + 1..], c)
  }

  lemma SplitWhole(a: string, c: char)
    requires c !in a
    ensures Split(a, c) == [a]
  {
    IndexOfSkip(a, [], [c]);
    assert a + [] == a;
  }

  /** Splitting at a separator whose left side holds none. */
  lemma SplitCons(a: string, c: char, b: string)
    requires c !in a
    ensures Split(a + [c] + b, c) == [a] + Split(b, c)
  {
    BeforeAtSeparator(a, [c], b);
  }

  /** Splitting at a separator whose right side holds none. */
  lemma {:induction false} SplitSnoc(a: string, c: char, b: string)
    requires c !in b
    ensures Split(a + [c] + b, c) == Split(a, c) + [b]
    decreases |a|
  {
    SplitWhole(b, c);
    if c !in a {
      SplitCons(a, c, b);
      SplitWhole(a, c);
    } else {
      var a1, a2 := FirstSeparator(a, c);
      assert a + [c] + b == a1 + [c] + (a2 + [c] + b);
      SplitCons(a1, c, a2 + [c] + b);
      SplitSnoc(a2, c, b);
      SplitCons(a1, c, a2);
    }
  }

  /** A string holding `c` splits around its first `c`. */
  lemma FirstSeparator(a: string, c: char) returns (a1: string, a2: string)
    requires c in a
    ensures a == a1 + [c] + a2 && c !in a1 && |a2| < |a|
  {
    IndexOfFirst(a, [c]);
    var k :| 0 <= k < |a| && a[k] == c;
    assert OccursAt(a, [c], k) by {
      assert a[k..k + 1] == [c];
    }
    var i := IndexOf(a, [c]).value;
    a1, a2 := a[..i], a[i + 1..];
    assert c !in a1 by {
      forall j | 0 <= j < i && a[j] == c ensures OccursAt(a, [c], j) {
        assert a[j..j + 1] == [c];
      }
    }
    assert a[i..i + 1] == [c];
    assert a == a1 + a[i..i + 1] + a2;
  }

  // ---------------------------------------------------------------------
  // Whitespace and strip()
  // ---------------------------------------------------------------------

  /** Python's `str.isspace()` for one character: the Unicode characters of
      bidirectional class WS, B or S, or of category Zs. */
  predicate IsSpace(c: char) {
    var n := c as int;
    (0x09 <= n <= 0x0D) || (0x1C <= n <= 0x20) || n == 0x85 || n == 0xA0 ||
    n == 0x1680 || (0x2000 <= n <= 0x200A) || n == 0x2028 || n == 0x2029 ||
    n == 0x202F || n == 0x205F || n == 0x3000
  }

  predicate AllSpace(s: string) {
    forall i :: 0 <= i < |s| ==> IsSpace(s[i])
  }

  /** Python's `s.lstrip()`: `s` is the stripped whitespace followed by `r`. */
  function StripLeft(s: string): (r: string)
    ensures |r| <= |s| && r == s[|s| - |r|..]
    ensures AllSpace(s[..|s| - |r|])
    ensures r == [] || !IsSpace(r[0])
    decreases |s|
  {
    if |s| > 0 && IsSpace(s[0]) then StripLeft(s[1..]) else s
  }

  /** Python's `s.rstrip()`: `s` is `r` followed by the stripped whitespace. */
  function StripRight(s: string): (r: string)
    ensures |r| <= |s| && r == s[..|r|]
    ensures AllSpace(s[|r|..])
    ensures r == [] || !IsSpace(r[|r| - 1])
    decreases |s|
  {
    if |s| > 0 && IsSpace(s[|s| - 1]) then StripRight(s[..|s| - 1]) else s
  }

  /** Python's `s.strip()`: the slice of `s` left once leading and trailing
      whitespace is gone. */
  function Strip(s: string): (r: string)
    ensures r == [] || (!IsSpace(r[0]) && !IsSpace(r[|r| - 1]))
  {
    var l := StripLeft(s);
    var r := StripRight(l);
    assert r != [] ==> r[0] == l[0];
    r
  }

  /** What `strip()` returns is a slice of its argument. */
  lemma StripIsSlice(s: string) returns (i: nat, j: nat)
    ensures i <= j <= |s| && Strip(s) == s[i..j]
  {
    var l := StripLeft(s);
    var r := StripRight(l);
    assert Strip(s) == r;
    i, j := |s| - |l|, |s| - |l| + |r|;
    SliceOfSlice(s, i, |r|);
  }

  lemma SliceOfSlice(s: string, i: nat, n: nat)
    requires i + n <= |s|
    ensures s[i..][..n] == s[i..i + n]
  {
  }

  lemma {:induction false} StripLeftPadded(w: string, x: string)
    requires AllSpace(w)
    requires x == [] || !IsSpace(x[0])
    ensures StripLeft(w + x) == x
    decreases |w|
  {
    if w != [] {
      assert (w + x)[1..] == w[1..] + x;
      StripLeftPadded(w[1..], x);
    } else {
      assert w + x == x;
    }
  }

  lemma {:induction false} StripRightPadded(x: string, w: string)
    requires AllSpace(w)
    requires x == [] || !IsSpace(x[|x| - 1])
    ensures StripRight(x + w) == x
    decreases |w|
  {
    if w != [] {
      assert (x + w)[..|x + w| - 1] == x + w[..|w| - 1];
      StripRightPadded(x, w[..|w| - 1]);
    } else {
      assert x + w == x;
    }
  }

  /** Whitespace around a word with no whitespace at its ends is what `strip()`
      removes, and nothing else. */
  lemma StripPadded(w1: string, x: string, w2: string)
    requires AllSpace(w1) && AllSpace(w2)
    requires x != [] && !IsSpace(x[0]) && !IsSpace(x[|x| - 1])
    ensures Strip(w1 + x + w2) == x
  {
    assert w1 + x + w2 == w1 + (x + w2);
    StripLeftPadded(w1, x + w2);
    StripRightPadded(x, w2);
  }

  // ---------------------------------------------------------------------
  // Decimal digits
  // ---------------------------------------------------------------------

  predicate IsDigit(c: char) {
    '0' as int <= c as int <= '9' as int
  }

  /** A non-empty run of ASCII decimal digits. */
  predicate IsDigits(s: string) {
    |s| > 0 && forall i :: 0 <= i < |s| ==> IsDigit(s[i])
  }

  predicate HasDigit(s: string) {
    exists i :: 0 <= i < |s| && IsDigit(s[i])
  }

  /** The value of a run of decimal digits, most significant first. */
  function DigitsValue(s: string): nat
    requires forall i :: 0 <= i < |s| ==> IsDigit(s[i])
    decreases |s|
  {
    if s == [] then 0
    else
      assert IsDigit(s[|s| - 1]);
      DigitsValue(s[..|s| - 1]) * 10 + (s[|s| - 1] as int - '0' as int)
  }

  function DigitChar(d: nat): (c: char)
    requires d < 10
    ensures IsDigit(c) && c as int - '0' as int == d
  {
    ('0' as int + d) as char
  }

  /** Python's `'%d' % n` for a natural number: its shortest decimal spelling. */
  function NatToStr(n: nat): (r: string)
    ensures IsDigits(r)
    ensures r[0] != '0' || n == 0
    decreases n
  {
    if n < 10 then [DigitChar(n)] else NatToStr(n / 10) + [DigitChar(n % 10)]
  }

  /** Python's `'%d' % n`. */
  function IntToStr(n: int): string {
    if n < 0 then "-" + NatToStr(-n) else NatToStr(n)
  }

  lemma {:induction false} NatToStrValue(n: nat)
    ensures DigitsValue(NatToStr(n)) == n
    decreases n
  {
    if n >= 10 {
      NatToStrValue(n / 10);
      var s := NatToStr(n);
      assert s[..|s| - 1] == NatToStr(n / 10);
    }
  }

  /** Python's `int(t)` on an already stripped string: an optional sign followed
      by ASCII decimal digits. */
  function ParseInt(t: string): Option<int> {
    if |t| > 0 && (t[0] == '+' || t[0] == '-') then
      var ds := t[1..];
      if IsDigits(ds) then
        Some(if t[0] == '-' then -(DigitsValue(ds) as int) else DigitsValue(ds))
      else None
    else if IsDigits(t) then
      Some(DigitsValue(t))
    else None
  }

  /** `int('%d' % n) == n`. */
  lemma ParseIntRoundTrip(n: int)
    ensures ParseInt(IntToStr(n)) == Some(n)
  {
    var s := IntToStr(n);
    if n < 0 {
      NatToStrValue(-n);
      assert s[0] == '-' && s[1..] == NatToStr(-n);
    } else {
      NatToStrValue(n);
      assert IsDigit(s[0]);
    }
  }

  /** `int()` accepts nothing without a digit. */
  lemma ParseIntHasDigit(t: string)
    requires ParseInt(t).Some?
    ensures HasDigit(t)
  {
    assert IsDigit(t[|t| - 1]);
  }

  /** A digit in a slice is a digit of the whole. */
  lemma HasDigitInSlice(s: string, i: int, j: int)
    requires 0 <= i <= j <= |s| && HasDigit(s[i..j])
    ensures HasDigit(s)
  {
    var k :| 0 <= k < j - i && IsDigit(s[i..j][k]);
    assert s[i + k] == s[i..j][k];
  }

  lemma StripHasDigit(s: string)
    requires HasDigit(Strip(s))
    ensures HasDigit(s)
  {
    var i, j := StripIsSlice(s);
    HasDigitInSlice(s, i, j);
  }

  lemma BeforeHasDigit(s: string, sub: string)
    requires HasDigit(Before(s, sub))
    ensures HasDigit(s)
  {
    HasDigitInSlice(s, 0, |Before(s, sub)|);
  }

  lemma AfterHasDigit(s: string, sub: string)
    requires Contains(s, sub) && HasDigit(After(s, sub))
    ensures HasDigit(s)
  {
    var k := |Before(s, sub)| + |sub|;
    assert After(s, sub) == s[k..|s|];
    HasDigitInSlice(s, k, |s|);
  }
}
