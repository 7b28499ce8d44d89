/** The string operations the generator relies on: str.strip(), f"{n}" for a
    natural number, str.replace(pat, ""), os.path.join and list.index. */
module Strings {

  /** Python's str.isspace() on one character: the set str.strip() removes by default. */
  predicate IsSpace(c: char) {
    var n := c as int;
    n == 0x20 || 0x09 <= n <= 0x0D || 0x1C <= n <= 0x1F || n == 0x85 || n == 0xA0
    || n == 0x1680 || 0x2000 <= n <= 0x200A || n == 0x2028 || n == 0x2029
    || n == 0x202F || n == 0x205F || n == 0x3000
  }

  /** The first position at or after i whose character is not whitespace, or |s|. */
  function SkipSpaces(s: string, i: nat): (k: nat)
    requires i <= |s|
    ensures i <= k <= |s|
    ensures k < |s| ==> !IsSpace(s[k])
    decreases |s| - i
  {
    if i < |s| && IsSpace(s[i]) then SkipSpaces(s, i + 1) else i
  }

  lemma {:induction false} SkipSpacesSkipsOnlySpaces(s: string, i: nat)
    requires i <= |s|
    ensures forall j :: i <= j < SkipSpaces(s, i) ==> IsSpace(s[j])
    decreases |s| - i
  {
    if i < |s| && IsSpace(s[i]) {
      SkipSpacesSkipsOnlySpaces(s, i + 1);
    }
  }

  /** The end of s[..j] once its trailing whitespace is dropped. */
  function SkipSpacesBack(s: string, j: nat): (k: nat)
    requires j <= |s|
    ensures k <= j
    ensures k > 0 ==> !IsSpace(s[k - 1])
  {
    if j > 0 && IsSpace(s[j - 1]) then SkipSpacesBack(s, j - 1) else j
  }

  lemma {:induction false} SkipSpacesBackSkipsOnlySpaces(s: string, j: nat)
    requires j <= |s|
    ensures forall i :: SkipSpacesBack(s, j) <= i < j ==> IsSpace(s[i])
  {
    if j > 0 && IsSpace(s[j - 1]) {
      SkipSpacesBackSkipsOnlySpaces(s, j - 1);
    }
  }

  /** s without its longest whitespace prefix. */
  function TrimStart(s: string): string {
    s[SkipSpaces(s, 0)..]
  }

  /** s without its longest whitespace suffix. */
  function TrimEnd(s: string): string {
    s[..SkipSpacesBack(s, |s|)]
  }

  /** str.strip() with no argument: s without its leading and trailing whitespace. */
  function Strip(s: string): string {
    TrimEnd(TrimStart(s))
  }

  /** Strip keeps one contiguous run of s, drops only whitespace around it, and the run
      neither starts nor ends with whitespace. */
  lemma StripDropsOnlyWhitespace(s: string)
    ensures var i, r := SkipSpaces(s, 0), Strip(s);
      i + |r| <= |s| && r == s[i..i + |r|]
      && (forall k :: 0 <= k < i ==> IsSpace(s[k]))
      && (forall k :: i + |r| <= k < |s| ==> IsSpace(s[k]))
      && (r == [] || (!IsSpace(r[0]) && !IsSpace(r[|r| - 1])))
  {
    var i := SkipSpaces(s, 0);
    var t := TrimStart(s);
    var j := SkipSpacesBack(t, |t|);
    SkipSpacesSkipsOnlySpaces(s, 0);
    SkipSpacesBackSkipsOnlySpaces(t, |t|);
    assert Strip(s) == t[..j] == s[i..i + j];
    forall k | i + j <= k < |s|
      ensures IsSpace(s[k])
    {
      assert s[k] == t[k - i];
    }
    if j > 0 {
      assert t[0] == s[i];
    }
  }

  /** Stripping twice is stripping once. */
  lemma StripIdempotent(s: string)
    ensures Strip(Strip(s)) == Strip(s)
  {
    var r := Strip(s);
    StripDropsOnlyWhitespace(s);
    if r != [] {
      assert SkipSpaces(r, 0) == 0;
      assert TrimStart(r) == r;
      assert SkipSpacesBack(r, |r|) == |r|;
    }
  }

  predicate IsDigit(c: char) {
    '0' <= c <= '9'
  }

  predicate AllDigits(s: string) {
    forall i :: 0 <= i < |s| ==> IsDigit(s[i])
  }

  function DigitChar(d: nat): (c: char)
    requires d < 10
    ensures IsDigit(c)
  {
    ('0' as int + d) as char
  }

  function DigitValue(c: char): (d: nat)
    requires IsDigit(c)
    ensures d < 10 && DigitChar(d) == c
  {
    c as int - '0' as int
  }

  /** The decimal text f"{n}" gives for a natural number n: no sign, no leading zero. */
  function Digits(n: nat): (r: string)
    ensures |r| > 0 && AllDigits(r)
    ensures r[0] == '0' ==> n == 0
  {
    if n < 10 then [DigitChar(n)] else Digits(n / 10) + [DigitChar(n % 10)]
  }

  /** Reads a string of decimal digits back as a number. */
  function ParseDigits(s: string): nat
    requires AllDigits(s)
  {
    if s == [] then 0 else ParseDigits(s[..|s| - 1]) * 10 + DigitValue(s[|s| - 1])
  }

  lemma {:induction false} ParseDigitsOfDigits(n: nat)
    ensures ParseDigits(Digits(n)) == n
  {
    var r := Digits(n);
    if n >= 10 {
      ParseDigitsOfDigits(n / 10);
      assert r[..|r| - 1] == Digits(n / 10);
      assert DigitValue(r[|r| - 1]) == n % 10;
    } else {
      assert r[..|r| - 1] == [];
      assert DigitValue(r[0]) == n;
    }
  }

  /** Different numbers print differently. */
  lemma DigitsInjective(a: nat, b: nat)
    requires Digits(a) == Digits(b)
    ensures a == b
  {
    ParseDigitsOfDigits(a);
    ParseDigitsOfDigits(b);
  }

  /** The number of decimal digits s starts with. */
  function LeadingDigits(s: string): (k: nat)
    ensures k <= |s| && AllDigits(s[..k])
    ensures k < |s| ==> !IsDigit(s[k])
  {
    if s != [] && IsDigit(s[0]) then 1 + LeadingDigits(s[1..]) else 0
  }

  lemma {:induction false} LeadingDigitsOfConcat(d: string, x: string)
    requires AllDigits(d) && x != [] && !IsDigit(x[0])
    ensures LeadingDigits(d + x) == |d|
  {
    if d != [] {
      assert (d + x)[1..] == d[1..] + x;
      LeadingDigitsOfConcat(d[1..], x);
    }
  }

  /** A number printed just before a non-digit is read back unambiguously:
      f"{a}{x}" == f"{b}{y}" forces a == b and x == y. */
  lemma DigitsThenText(a: nat, x: string, b: nat, y: string)
    requires x != [] && !IsDigit(x[0]) && y != [] && !IsDigit(y[0])
    requires Digits(a) + x == Digits(b) + y
    ensures a == b && x == y
  {
    var da, db := Digits(a), Digits(b);
    var s := da + x;
    LeadingDigitsOfConcat(da, x);
    LeadingDigitsOfConcat(db, y);
    assert da == s[..|da|] == db;
    DigitsInjective(a, b);
    assert x == s[|da|..] == y;
  }

  /** pat occurs in s at position i. */
  predicate OccursAt(pat: string, s: string, i: nat) {
    i + |pat| <= |s| && s[i..i + |pat|] == pat
  }

  /** pat occurs somewhere in s. */
  predicate Occurs(pat: string, s: string) {
    exists i: nat :: i <= |s| && OccursAt(pat, s, i)
  }

  /** s.replace(pat, ""): every non-overlapping occurrence of pat, found from the left, is deleted. */
  function RemoveAll(s: string, pat: string): (r: string)
    requires pat != []
    ensures |r| <= |s|
    decreases |s|
  {
    if |s| < |pat| then s
    else if s[..|pat|] == pat then RemoveAll(s[|pat|..], pat)
    else [s[0]] + RemoveAll(s[1..], pat)
  }

  /** Removing a pattern that does not occur changes nothing. */
  lemma {:induction false} RemoveAllAbsent(s: string, pat: string)
    requires pat != [] && !Occurs(pat, s)
    ensures RemoveAll(s, pat) == s
  {
    if |s| >= |pat| {
      assert !OccursAt(pat, s, 0);
      assert s[0..0 + |pat|] == s[..|pat|];
      if Occurs(pat, s[1..]) {
        var i: nat :| i <= |s[1..]| && OccursAt(pat, s[1..], i);
        assert s[i + 1..i + 1 + |pat|] == s[1..][i..i + |pat|];
        assert OccursAt(pat, s, i + 1);
      }
      RemoveAllAbsent(s[1..], pat);
    }
  }

  /** For a file name "<base>.txt" whose base has no ".txt" inside, replace gives back the base. */
  lemma {:induction false} RemoveTxtSuffix(base: string)
    requires !Occurs(".txt", base)
    ensures RemoveAll(base + ".txt", ".txt") == base
  {
    var s := base + ".txt";
    if base == [] {
      assert s[4..] == [];
    } else {
      if |base| >= 4 {
        assert !OccursAt(".txt", base, 0);
        assert s[..4] == base[0..0 + 4];
      } else {
        // ".txt" has no border, so an occurrence cannot straddle base and the suffix
        assert s[|base|] == '.';
        assert s[..4][|base|] == s[|base|];
      }
      assert s[..4] != ".txt";
      if Occurs(".txt", base[1..]) {
        var i: nat :| i <= |base[1..]| && OccursAt(".txt", base[1..], i);
        assert base[i + 1..i + 1 + 4] == base[1..][i..i + 4];
        assert OccursAt(".txt", base, i + 1);
      }
      RemoveTxtSuffix(base[1..]);
      assert s[1..] == base[1..] + ".txt";
    }
  }

  /** os.path.join(a, b) on POSIX, for two components. */
  function Join(a: string, b: string): string {
    if |b| > 0 && b[0] == '/' then b
    else if a == [] || a[|a| - 1] == '/' then a + b
    else a + "/" + b
  }

  /** Joining onto the same directory keeps relative names apart. */
  lemma JoinInjective(a: string, b1: string, b2: string)
    requires b1 != [] && b1[0] != '/' && b2 != [] && b2[0] != '/'
    requires Join(a, b1) == Join(a, b2)
    ensures b1 == b2
  {
    var p := if a == [] || a[|a| - 1] == '/' then a else a + "/";
    assert Join(a, b1) == p + b1 && Join(a, b2) == p + b2;
    assert b1 == (p + b1)[|p|..];
    assert b2 == (p + b2)[|p|..];
  }

  /** The first position at or after i that holds x, or |s| when there is none. */
  function FindFrom<T(==)>(s: seq<T>, x: T, i: nat): (r: nat)
    requires i <= |s|
    ensures i <= r <= |s|
    ensures r < |s| ==> s[r] == x
    decreases |s| - i
  {
    if i == |s| || s[i] == x then i else FindFrom(s, x, i + 1)
  }

  lemma {:induction false} FindFromFirst<T>(s: seq<T>, x: T, i: nat)
    requires i <= |s|
    ensures forall j :: i <= j < FindFrom(s, x, i) ==> s[j] != x
    decreases |s| - i
  {
    if i < |s| && s[i] != x {
      FindFromFirst(s, x, i + 1);
    }
  }

  /** list.index(x): the position of the FIRST occurrence of x. */
  function IndexOf<T(==)>(s: seq<T>, x: T): (r: nat)
    requires x in s
    ensures r < |s| && s[r] == x
  {
    FindFromFirst(s, x, 0);
    FindFrom(s, x, 0)
  }

  /** No position before IndexOf(s, x) holds x. */
  lemma IndexOfFirst<T>(s: seq<T>, x: T)
    requires x in s
    ensures forall j :: 0 <= j < IndexOf(s, x) ==> s[j] != x
  {
    FindFromFirst(s, x, 0);
  }

  lemma AppendAssociative<T>(a: seq<T>, b: seq<T>, c: seq<T>)
    ensures a + (b + c) == a + b + c
  {
  }

  lemma TakeSnoc<T>(s: seq<T>, j: nat)
    requires j < |s|
    ensures s[..j + 1] == s[..j] + [s[j]]
  {
  }

  predicate Distinct<T(==)>(s: seq<T>) {
    forall i, j :: 0 <= i < j < |s| ==> s[i] != s[j]
  }

  /** When s has no repeated element, looking up s[p] gives back p. */
  lemma IndexOfDistinct<T>(s: seq<T>, p: nat)
    requires Distinct(s) && p < |s|
    ensures IndexOf(s, s[p]) == p
  {
    IndexOfFirst(s, s[p]);
  }
}
