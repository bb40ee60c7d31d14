/** The parts of Python's `str` that the download engine relies on, with the
    semantics CPython gives them: slicing with negative bounds, `strip` with a
    character set, `find`/`rfind`, `split`, `replace` of a doubled character,
    ASCII `lower`, `*` repetition and `str(int)`. */
module PyStr {

  /** `s.startswith(p)` */
  predicate StartsWith(s: string, p: string) {
    |p| <= |s| && s[..|p|] == p
  }

  /** `s.endswith(p)` */
  predicate EndsWith(s: string, p: string) {
    |p| <= |s| && s[|s| - |p|..] == p
  }

  /** `sub` sits in `s` at offset `i`. */
  predicate Occurs(s: string, sub: string, i: int) {
    0 <= i && i + |sub| <= |s| && s[i..i + |sub|] == sub
  }

  /** `sub in s` */
  predicate Contains(s: string, sub: string) {
    exists i :: 0 <= i <= |s| && Occurs(s, sub, i)
  }

  /** `s[:k]`, where a negative `k` counts from the end and every bound is clamped. */
  function SliceTo(s: string, k: int): (r: string)
    ensures |r| <= |s| && r == s[..|r|]
    ensures 0 <= k <= |s| ==> |r| == k
    ensures |s| <= k ==> r == s
    ensures k < 0 ==> |r| == (if |s| + k > 0 then |s| + k else 0)
  {
    if |s| <= k then s
    else if 0 <= k then s[..k]
    else if |s| + k > 0 then s[..|s| + k]
    else []
  }

  /** `c * n`: `n` copies of `c`, and the empty string when `n <= 0`. */
  function Repeat(c: char, n: int): (r: string)
    ensures |r| == (if n > 0 then n else 0)
    ensures forall i :: 0 <= i < |r| ==> r[i] == c
  {
    if n <= 0 then [] else [c] + Repeat(c, n - 1)
  }

  // ---------------------------------------------------------------------------
  // strip

  /** Number of leading characters of `s` that belong to `cs`. */
  function LeadCount(s: string, cs: set<char>): (n: nat)
    ensures n <= |s|
    ensures forall k :: 0 <= k < n ==> s[k] in cs
    ensures n == |s| || s[n] !in cs
  {
    if |s| > 0 && s[0] in cs then 1 + LeadCount(s[1..], cs) else 0
  }

  /** Number of trailing characters of `s` that belong to `cs`. */
  function TrailCount(s: string, cs: set<char>): (n: nat)
    ensures n <= |s|
    ensures forall k :: |s| - n <= k < |s| ==> s[k] in cs
    ensures n == |s| || s[|s| - n - 1] !in cs
  {
    if |s| > 0 && s[|s| - 1] in cs then 1 + TrailCount(s[..|s| - 1], cs) else 0
  }

  /** `s.strip(cs)`: the longest infix of `s` that neither starts nor ends with a
      member of `cs`; everything removed belongs to `cs`. */
  function Strip(s: string, cs: set<char>): (r: string)
    ensures LeadCount(s, cs) + |r| <= |s|
    ensures r == s[LeadCount(s, cs)..LeadCount(s, cs) + |r|]
    ensures forall k :: LeadCount(s, cs) + |r| <= k < |s| ==> s[k] in cs
    ensures r == [] || (r[0] !in cs && r[|r| - 1] !in cs)
    ensures r == [] <==> forall k :: 0 <= k < |s| ==> s[k] in cs
  {
    var t := s[LeadCount(s, cs)..];
    t[..|t| - TrailCount(t, cs)]
  }

  /** The characters `str.strip()` removes when called without arguments. */
  const Whitespace: set<char> := {
    '\t', '\n', '\U{B}', '\U{C}', '\r', '\U{1C}', '\U{1D}', '\U{1E}', '\U{1F}', ' ',
    '\U{85}', '\U{A0}', '\U{1680}',
    '\U{2000}', '\U{2001}', '\U{2002}', '\U{2003}', '\U{2004}', '\U{2005}',
    '\U{2006}', '\U{2007}', '\U{2008}', '\U{2009}', '\U{200A}',
    '\U{2028}', '\U{2029}', '\U{202F}', '\U{205F}', '\U{3000}'
  }

  /** `s.strip()` */
  function StripSpace(s: string): string {
    Strip(s, Whitespace)
  }

  // ---------------------------------------------------------------------------
  // lower

  function LowerChar(c: char): char {
    if 'A' <= c <= 'Z' then (c as int + 32) as char else c
  }

  /** `s.lower()` restricted to the ASCII letters. */
  function Lower(s: string): (r: string)
    ensures |r| == |s|
    ensures forall i :: 0 <= i < |s| ==> r[i] == LowerChar(s[i])
  {
    seq(|s|, i requires 0 <= i < |s| => LowerChar(s[i]))
  }

  lemma LowerIdempotent(s: string)
    ensures Lower(Lower(s)) == Lower(s)
  {
  }

  // ---------------------------------------------------------------------------
  // find, rfind, split

  /** `s.rfind(c)` for a single character: the last index holding `c`, or -1. */
  function RFind(s: string, c: char): (i: int)
    ensures -1 <= i < |s|
    ensures 0 <= i ==> s[i] == c
    ensures forall k :: i < k < |s| ==> s[k] != c
  {
    if |s| == 0 then -1
    else if s[|s| - 1] == c then |s| - 1
    else RFind(s[..|s| - 1], c)
  }

  /** The last `c` sits at `i` when `s[i]` is `c` and nothing after it is. */
  lemma RFindAt(s: string, c: char, i: int)
    requires 0 <= i < |s| && s[i] == c
    requires forall k :: i < k < |s| ==> s[k] != c
    ensures RFind(s, c) == i
  {
  }

  function FindFrom(s: string, sub: string, from: nat): (i: int)
    decreases |s| - from
    ensures i == -1 || (from <= i && Occurs(s, sub, i))
    ensures 0 <= i ==> forall j :: from <= j < i ==> !Occurs(s, sub, j)
    ensures i == -1 ==> forall j :: from <= j ==> !Occurs(s, sub, j)
  {
    if |s| < from + |sub| then -1
    else if s[from..from + |sub|] == sub then from
    else FindFrom(s, sub, from + 1)
  }

  /** `s.find(sub)`: the first offset of `sub` in `s`, or -1 when it does not occur. */
  function Find(s: string, sub: string): (i: int)
    ensures i == -1 <==> !Contains(s, sub)
    ensures 0 <= i ==> Occurs(s, sub, i)
    ensures 0 <= i ==> forall j :: 0 <= j < i ==> !Occurs(s, sub, j)
  {
    FindFrom(s, sub, 0)
  }

  /** `s.split(sep)[0]`: the text before the first `sep`, or all of `s`. */
  function BeforeFirst(s: string, sep: string): (r: string)
    requires |sep| > 0
    ensures StartsWith(s, r)
    ensures !Contains(r, sep)
    ensures !Contains(s, sep) ==> r == s
    ensures Contains(s, sep) ==> Occurs(s, sep, |r|)
  {
    var i := Find(s, sep);
    if i < 0 then s
    else
      var r := s[..i];
      assert !Contains(r, sep) by {
        forall j | Occurs(r, sep, j) ensures false {
          assert s[j..j + |sep|] == r[j..j + |sep|];
          assert Occurs(s, sep, j);
        }
      }
      r
  }

  /** `sub` occurs at `i` and nowhere before. */
  predicate FirstOccurrence(s: string, sub: string, i: int) {
    Occurs(s, sub, i) && forall j :: 0 <= j < i ==> !Occurs(s, sub, j)
  }

  /** `r` is `t` up to its first `sep`, or all of `t` when it has none. */
  predicate UpToNext(t: string, sep: string, r: string) {
    StartsWith(t, r) && !Contains(r, sep) && (|r| == |t| || Occurs(t, sep, |r|))
  }

  /** `s.split(sep)[1]`: the text between the first and the second `sep`. */
  function SecondField(s: string, sep: string): (r: string)
    requires |sep| > 0 && Contains(s, sep)
    ensures exists i :: FirstOccurrence(s, sep, i) && UpToNext(s[i + |sep|..], sep, r)
  {
    var i := Find(s, sep);
    var r := BeforeFirst(s[i + |sep|..], sep);
    assert FirstOccurrence(s, sep, i) && UpToNext(s[i + |sep|..], sep, r);
    r
  }

  /** `s.split(c)[-1]` for a single character: the text after the last `c`. */
  function AfterLast(s: string, c: char): (r: string)
    ensures EndsWith(s, r)
    ensures c !in r
    ensures c !in s ==> r == s
    ensures |r| == |s| || s[|s| - |r| - 1] == c
  {
    s[RFind(s, c) + 1..]
  }

  // ---------------------------------------------------------------------------
  // replace of a doubled character, and the loop that repeats it

  /** `s` holds `c` twice in a row: `c + c in s`. */
  predicate HasDouble(s: string, c: char) {
    exists i :: 0 <= i < |s| - 1 && s[i] == c && s[i + 1] == c
  }

  /** `s.replace(c + c, c)`: a left-to-right scan that rewrites each
      non-overlapping pair of `c` to one `c`. */
  function ReplaceDouble(s: string, c: char): (r: string)
    ensures |r| <= |s|
    ensures HasDouble(s, c) ==> |r| < |s|
    ensures |s| > 0 ==> |r| > 0 && r[0] == s[0]
  {
    if |s| < 2 then s
    else if s[0] == c && s[1] == c then [c] + ReplaceDouble(s[2..], c)
    else
      assert HasDouble(s, c) ==> HasDouble(s[1..], c) by {
        if HasDouble(s, c) {
          var i :| 0 <= i < |s| - 1 && s[i] == c && s[i + 1] == c;
          assert s[1..][i - 1] == c && s[1..][i] == c;
        }
      }
      [s[0]] + ReplaceDouble(s[1..], c)
  }

  /** `while c + c in s: s = s.replace(c + c, c)` */
  function CollapseLoop(s: string, c: char): string
    decreases |s|
  {
    if HasDouble(s, c) then CollapseLoop(ReplaceDouble(s, c), c) else s
  }

  /** Reference definition of run collapsing: every `c` that is directly
      followed by another `c` is dropped, so each run of `c` keeps one. */
  function Squash(s: string, c: char): string {
    if |s| == 0 then []
    else if |s| >= 2 && s[0] == c && s[1] == c then Squash(s[1..], c)
    else [s[0]] + Squash(s[1..], c)
  }

  lemma {:induction false} SquashKeepsHead(s: string, c: char)
    ensures |s| > 0 ==> |Squash(s, c)| > 0 && Squash(s, c)[0] == s[0]
    decreases |s|
  {
    if |s| >= 2 && s[0] == c && s[1] == c {
      SquashKeepsHead(s[1..], c);
    }
  }

  /** Squashing leaves no doubled `c`. */
  lemma {:induction false} SquashHasNoDouble(s: string, c: char)
    ensures !HasDouble(Squash(s, c), c)
    decreases |s|
  {
    if |s| == 0 {
    } else if |s| >= 2 && s[0] == c && s[1] == c {
      SquashHasNoDouble(s[1..], c);
    } else {
      var t := Squash(s[1..], c);
      SquashHasNoDouble(s[1..], c);
      SquashKeepsHead(s[1..], c);
    }
  }

  /** A string with no doubled `c` is left alone by squashing. */
  lemma {:induction false} SquashIdentity(s: string, c: char)
    requires !HasDouble(s, c)
    ensures Squash(s, c) == s
    decreases |s|
  {
    if |s| > 0 {
      assert !HasDouble(s[1..], c);
      SquashIdentity(s[1..], c);
    }
  }

  /** One `replace` pass does not change what squashing yields. */
  lemma {:induction false} SquashReplaceDouble(s: string, c: char)
    ensures Squash(ReplaceDouble(s, c), c) == Squash(s, c)
    decreases |s|
  {
    if |s| < 2 {
    } else if s[0] == c && s[1] == c {
      var u := s[2..];
      SquashReplaceDouble(u, c);
      var ru := ReplaceDouble(u, c);
      assert s[1..] == [c] + u;
      assert ReplaceDouble(s, c) == [c] + ru;
      if |u| > 0 && u[0] == c {
        assert |ru| > 0 && ru[0] == c;
        assert Squash([c] + ru, c) == Squash(ru, c);
        assert Squash([c] + u, c) == Squash(u, c);
      } else {
        assert |ru| == 0 || ru[0] != c;
        assert Squash([c] + ru, c) == [c] + Squash(ru, c);
        assert Squash([c] + u, c) == [c] + Squash(u, c);
      }
    } else {
      var u := s[1..];
      SquashReplaceDouble(u, c);
      var ru := ReplaceDouble(u, c);
      assert ReplaceDouble(s, c) == [s[0]] + ru;
      assert Squash([s[0]] + ru, c) == [s[0]] + Squash(ru, c);
    }
  }

  /** The `while ... replace` loop computes exactly the squashed string. */
  lemma {:induction false} CollapseLoopIsSquash(s: string, c: char)
    ensures CollapseLoop(s, c) == Squash(s, c)
    decreases |s|
  {
    if HasDouble(s, c) {
      CollapseLoopIsSquash(ReplaceDouble(s, c), c);
      SquashReplaceDouble(s, c);
    } else {
      SquashIdentity(s, c);
    }
  }

  /** Squashing only deletes characters, so a property of every input
      character holds of every output character. */
  lemma {:induction false} SquashKeeps(s: string, c: char, P: char -> bool)
    requires forall i :: 0 <= i < |s| ==> P(s[i])
    ensures forall i :: 0 <= i < |Squash(s, c)| ==> P(Squash(s, c)[i])
    decreases |s|
  {
    if |s| > 0 {
      SquashKeeps(s[1..], c, P);
    }
  }

  /** Squashing one character cannot create a doubled other character. */
  lemma {:induction false} SquashKeepsNoDouble(s: string, c: char, d: char)
    requires c != d && !HasDouble(s, d)
    ensures !HasDouble(Squash(s, c), d)
    decreases |s|
  {
    if |s| > 0 {
      assert !HasDouble(s[1..], d);
      SquashKeepsNoDouble(s[1..], c, d);
      if !(|s| >= 2 && s[0] == c && s[1] == c) {
        var t := Squash(s[1..], c);
        SquashKeepsHead(s[1..], c);
      }
    }
  }

  // ---------------------------------------------------------------------------
  // str(int) and reading decimal digits back

  const Digits: set<char> := set c: char | '0' <= c <= '9'

  function DigitChar(d: nat): (c: char)
    requires d < 10
    ensures c in Digits
  {
    ('0' as int + d) as char
  }

  function DigitValue(c: char): nat
    requires c in Digits
  {
    c as int - '0' as int
  }

  /** `str(n)` for a non-negative integer. */
  function NatToString(n: nat): (r: string)
    ensures |r| > 0
    ensures forall i :: 0 <= i < |r| ==> r[i] in Digits
    ensures |r| > 1 ==> r[0] != '0'
  {
    if n < 10 then [DigitChar(n)] else NatToString(n / 10) + [DigitChar(n % 10)]
  }

  /** The value of a string of decimal digits (leading zeros allowed). */
  function DigitsValue(s: string): nat
    requires forall i :: 0 <= i < |s| ==> s[i] in Digits
  {
    if |s| == 0 then 0 else 10 * DigitsValue(s[..|s| - 1]) + DigitValue(s[|s| - 1])
  }

  /** Reading `str(n)` back gives `n`. */
  lemma {:induction false} NatToStringRoundTrip(n: nat)
    ensures DigitsValue(NatToString(n)) == n
  {
    if n >= 10 {
      var s := NatToString(n);
      assert s[..|s| - 1] == NatToString(n / 10);
      NatToStringRoundTrip(n / 10);
    }
  }

  /** A leading zero does not change a digit string's value. */
  lemma {:induction false} LeadingZero(s: string)
    requires forall i :: 0 <= i < |s| ==> s[i] in Digits
    ensures DigitsValue("0" + s) == DigitsValue(s)
    decreases |s|
  {
    if |s| > 0 {
      assert ("0" + s)[..|"0" + s| - 1] == "0" + s[..|s| - 1];
      LeadingZero(s[..|s| - 1]);
    }
  }

  /** A digit string as `str` prints a non-negative integer: at least one
      digit, and no leading zero unless the number is 0. */
  predicate Decimal(d: string) {
    d != [] && (forall i :: 0 <= i < |d| ==> d[i] in Digits) && (|d| > 1 ==> d[0] != '0')
  }

  lemma DigitRoundTrip(c: char)
    requires c in Digits
    ensures DigitValue(c) < 10 && DigitChar(DigitValue(c)) == c
  {
  }

  /** The only text `str` prints for a number is its decimal form: a
      `Decimal` string is `str` of its value. */
  lemma {:induction false} DecimalIsString(d: string)
    requires Decimal(d)
    ensures d == NatToString(DigitsValue(d))
    decreases |d|
  {
    var last := d[|d| - 1];
    DigitRoundTrip(last);
    if |d| > 1 {
      var p := d[..|d| - 1];
      assert p[0] == d[0];
      DecimalIsString(p);
      var pv := DigitsValue(p);
      assert pv > 0;
      var v := DigitsValue(d);
      assert v == 10 * pv + DigitValue(last);
      assert v / 10 == pv && v % 10 == DigitValue(last);
      assert d == p + [last];
    }
  }

  /** The maximal run of digits at the start of `s`. */
  function LeadDigits(s: string): (d: string)
    ensures forall i :: 0 <= i < |d| ==> d[i] in Digits
    ensures |d| <= |s| && s[..|d|] == d
  {
    s[..LeadCount(s, Digits)]
  }

  /** The maximal run of digits at the start of `s`, and its value. */
  function ReadNat(s: string): (r: (nat, string))
    ensures |r.1| <= |s|
  {
    var n := LeadCount(s, Digits);
    (DigitsValue(s[..n]), s[n..])
  }

  /** `ReadNat` reads the leading digit run and leaves the rest of the text. */
  lemma ReadNatSplit(s: string)
    ensures s == LeadDigits(s) + ReadNat(s).1 && ReadNat(s).0 == DigitsValue(LeadDigits(s))
  {
    var n := LeadCount(s, Digits);
    assert s == s[..n] + s[n..];
  }

  /** A run of digits followed by a non-digit (or nothing) reads back as its value. */
  lemma ReadNatDigits(d: string, rest: string)
    requires forall i :: 0 <= i < |d| ==> d[i] in Digits
    requires rest == [] || rest[0] !in Digits
    ensures ReadNat(d + rest) == (DigitsValue(d), rest)
  {
    var s := d + rest;
    var k := LeadCount(s, Digits);
    assert forall i :: 0 <= i < |d| ==> s[i] == d[i];
    assert |d| == |s| || s[|d|] == rest[0];
    assert k == |d|;
    assert s[..k] == d;
    assert s[k..] == rest;
  }

  /** The leading digit run of digits followed by a non-digit is those digits. */
  lemma LeadDigitsOf(d: string, rest: string)
    requires forall i :: 0 <= i < |d| ==> d[i] in Digits
    requires rest == [] || rest[0] !in Digits
    ensures LeadDigits(d + rest) == d
  {
    ReadNatDigits(d, rest);
    var s := d + rest;
    assert |LeadDigits(s)| == |s| - |ReadNat(s).1|;
    assert s[..|d|] == d;
  }

  /** `str(n)` followed by a non-digit (or nothing) reads back as `n`. */
  lemma ReadNatString(n: nat, rest: string)
    requires rest == [] || rest[0] !in Digits
    ensures ReadNat(NatToString(n) + rest) == (n, rest)
    ensures LeadDigits(NatToString(n) + rest) == NatToString(n)
  {
    ReadNatDigits(NatToString(n), rest);
    LeadDigitsOf(NatToString(n), rest);
    NatToStringRoundTrip(n);
  }
}
