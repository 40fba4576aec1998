/**
 * The string operations the record keeper relies on, restricted to ASCII:
 * `str.strip()`, `str.lower()`, the `in` substring test, `sep.join(xs)`,
 * `s.split(sep, 1)[0]` and `str(int)`.
 */
module Text {

  /** Whitespace as Python's `str.isspace` sees it inside ASCII:
      tab, line feed, vertical tab, form feed, carriage return,
      the four separators 0x1C-0x1F and the space. */
  predicate IsSpace(c: char) {
    c == ' ' || ('\t' <= c <= '\r') || ('\U{1C}' <= c <= '\U{1F}')
  }

  predicate IsUpper(c: char) { 'A' <= c <= 'Z' }
  predicate IsLower(c: char) { 'a' <= c <= 'z' }
  predicate IsLetter(c: char) { IsUpper(c) || IsLower(c) }
  predicate IsDigit(c: char) { '0' <= c <= '9' }
  predicate IsAlnum(c: char) { IsLetter(c) || IsDigit(c) }

  predicate AllSpace(s: string) {
    forall i :: 0 <= i < |s| ==> IsSpace(s[i])
  }

  /** Leading whitespace removed. */
  function StripLeft(s: string): (r: string)
    ensures |r| <= |s| && r == s[|s| - |r|..]
    ensures AllSpace(s[..|s| - |r|])
    ensures r == [] || !IsSpace(r[0])
  {
    if |s| > 0 && IsSpace(s[0]) then
      var r := StripLeft(s[1..]);
      assert s[1..][..|s| - 1 - |r|] == s[1..|s| - |r|];
      r
    else s
  }

  /** Trailing whitespace removed. */
  function StripRight(s: string): (r: string)
    ensures |r| <= |s| && r == s[..|r|]
    ensures AllSpace(s[|r|..])
    ensures r == [] || !IsSpace(r[|r| - 1])
  {
    if |s| > 0 && IsSpace(s[|s| - 1]) then
      var r := StripRight(s[..|s| - 1]);
      assert s[..|s| - 1][|r|..] + [s[|s| - 1]] == s[|r|..];
      r
    else s
  }

  /** Python's `s.strip()`. */
  function Strip(s: string): string {
    StripRight(StripLeft(s))
  }

  /** `s.strip()` is truthy: the string holds a non-whitespace character. */
  predicate NonBlank(s: string) {
    Strip(s) != []
  }

  /** A string is non-blank exactly when one of its characters is not whitespace. */
  lemma NonBlankIff(s: string)
    ensures NonBlank(s) <==> exists i :: 0 <= i < |s| && !IsSpace(s[i])
  {
    var l := StripLeft(s);
    if NonBlank(s) {
      assert l[0] == s[|s| - |l|];
    } else {
      assert l[|StripRight(l)|..] == l;
      assert l == [];
      forall i | 0 <= i < |s|
        ensures IsSpace(s[i])
      {
        assert s[..|s|][i] == s[i];
      }
    }
  }

  /** Python's `str.lower()` on one ASCII character; every other character is kept. */
  function LowerChar(c: char): char {
    if IsUpper(c) then (c as int + 32) as char else c
  }

  /** Python's `s.lower()` restricted to ASCII case folding. */
  function Lower(s: string): (r: string)
    ensures |r| == |s|
    ensures forall i :: 0 <= i < |s| ==> r[i] == LowerChar(s[i])
  {
    seq(|s|, i requires 0 <= i < |s| => LowerChar(s[i]))
  }

  lemma LowerKeepsSpace(c: char)
    ensures IsSpace(LowerChar(c)) <==> IsSpace(c)
  {
  }

  /** Lower-casing and stripping commute, so `term.lower().strip()` and
      `term.strip().lower()` give the same search term. */
  lemma {:induction false} StripLowerCommute(s: string)
    ensures Strip(Lower(s)) == Lower(Strip(s))
  {
    StripLeftLower(s);
    StripRightLower(StripLeft(s));
  }

  lemma {:induction false} StripLeftLower(s: string)
    ensures StripLeft(Lower(s)) == Lower(StripLeft(s))
    decreases |s|
  {
    if |s| > 0 {
      LowerKeepsSpace(s[0]);
      assert Lower(s)[1..] == Lower(s[1..]);
      if IsSpace(s[0]) {
        StripLeftLower(s[1..]);
      }
    }
  }

  lemma {:induction false} StripRightLower(s: string)
    ensures StripRight(Lower(s)) == Lower(StripRight(s))
    decreases |s|
  {
    if |s| > 0 {
      LowerKeepsSpace(s[|s| - 1]);
      assert Lower(s)[..|s| - 1] == Lower(s[..|s| - 1]);
      if IsSpace(s[|s| - 1]) {
        StripRightLower(s[..|s| - 1]);
      }
    }
  }

  /** `t` occurs in `hay` starting at index `i`. */
  predicate OccursAt(hay: string, t: string, i: int) {
    0 <= i && i + |t| <= |hay| && hay[i..i + |t|] == t
  }

  /** Python's `t in hay`. */
  function Contains(hay: string, t: string): (r: bool)
    ensures r <==> exists i :: OccursAt(hay, t, i)
    decreases |hay|
  {
    if t <= hay then
      assert hay[0..|t|] == t;
      assert OccursAt(hay, t, 0);
      true
    else if |hay| == 0 then
      false
    else
      OccursInTail(hay, t);
      Contains(hay[1..], t)
  }

  /** When `t` is not a prefix of `hay`, it occurs in `hay` exactly when it occurs in `hay[1..]`. */
  lemma OccursInTail(hay: string, t: string)
    requires |hay| > 0 && !(t <= hay)
    ensures (exists i :: OccursAt(hay, t, i)) <==> (exists j :: OccursAt(hay[1..], t, j))
  {
    if i :| OccursAt(hay, t, i) {
      assert i != 0;
      assert hay[1..][i - 1..i - 1 + |t|] == hay[i..i + |t|];
      assert OccursAt(hay[1..], t, i - 1);
    }
    if j :| OccursAt(hay[1..], t, j) {
      assert hay[1..][j..j + |t|] == hay[j + 1..j + 1 + |t|];
      assert OccursAt(hay, t, j + 1);
    }
  }

  /** The empty term occurs in every string. */
  lemma EmptyTermOccurs(hay: string)
    ensures Contains(hay, "")
  {
  }

  /** Python's `sep.join(xs)`. */
  function Join(xs: seq<string>, sep: string): string
  {
    if |xs| == 0 then ""
    else if |xs| == 1 then xs[0]
    else xs[0] + sep + Join(xs[1..], sep)
  }

  /** Python's `s.split(sep, 1)[0]`: the text before the first occurrence of
      `sep`, or all of `s` when `sep` does not occur. */
  function BeforeFirst(s: string, sep: string): (r: string)
    requires |sep| > 0
    ensures r <= s
    ensures forall p :: 0 <= p < |r| ==> !OccursAt(s, sep, p)
    ensures r == s || OccursAt(s, sep, |r|)
    decreases |s|
  {
    if sep <= s then
      assert s[0..|sep|] == sep;
      ""
    else if |s| == 0 then
      s
    else
      var r := [s[0]] + BeforeFirst(s[1..], sep);
      assert forall p :: 1 <= p <= |r| ==> OccursAt(s, sep, p) == OccursAt(s[1..], sep, p - 1) by {
        forall p | 1 <= p <= |r|
          ensures OccursAt(s, sep, p) == OccursAt(s[1..], sep, p - 1)
        {
          if p + |sep| <= |s| {
            assert s[1..][p - 1..p - 1 + |sep|] == s[p..p + |sep|];
          }
        }
      }
      assert !OccursAt(s, sep, 0) by {
        if OccursAt(s, sep, 0) {
          assert false;
        }
      }
      r
  }

  /** Trailing whitespace of `a + b` lies in `b` when `b` is not all whitespace. */
  lemma {:induction false} StripRightAppend(a: string, b: string)
    requires !AllSpace(b)
    ensures StripRight(a + b) == a + StripRight(b)
    decreases |b|
  {
    var n := |b| - 1;
    assert (a + b)[|a + b| - 1] == b[n];
    if IsSpace(b[n]) {
      assert !AllSpace(b[..n]) by {
        var i :| 0 <= i < |b| && !IsSpace(b[i]);
        assert b[..n][i] == b[i];
      }
      assert (a + b)[..|a + b| - 1] == a + b[..n];
      StripRightAppend(a, b[..n]);
    }
  }

  /** `split(sep, 1)[0]` stops at the first occurrence of the separator. */
  lemma BeforeFirstAt(s: string, sep: string, p: nat)
    requires |sep| > 0 && OccursAt(s, sep, p)
    requires forall q :: 0 <= q < p ==> !OccursAt(s, sep, q)
    ensures BeforeFirst(s, sep) == s[..p]
  {
    var r := BeforeFirst(s, sep);
    assert |r| >= p ==> |r| == p;
  }

  function DigitChar(d: nat): char
    requires d < 10
  {
    ('0' as int + d) as char
  }

  /** Decimal digits of a natural number, without leading zeros. */
  function NatToString(n: nat): (r: string)
    ensures |r| > 0 && forall i :: 0 <= i < |r| ==> IsDigit(r[i])
  {
    if n < 10 then [DigitChar(n)] else NatToString(n / 10) + [DigitChar(n % 10)]
  }

  /** Python's `str(n)` for an integer. */
  function IntToString(n: int): string
  {
    if n < 0 then "-" + NatToString(-n) else NatToString(n)
  }

  /** Python's `s.find(c)`, with `|s|` in place of -1 when `c` is absent. */
  function IndexOf(s: string, c: char): (i: nat)
    ensures i <= |s| && (i < |s| ==> s[i] == c)
    ensures forall k :: 0 <= k < i ==> s[k] != c
  {
    if |s| == 0 then 0
    else if s[0] == c then 0
    else 1 + IndexOf(s[1..], c)
  }

  /** Python's `s.rfind(c)`: the last index holding `c`, or -1. */
  function LastIndexOf(s: string, c: char): (i: int)
    ensures -1 <= i < |s| && (i >= 0 ==> s[i] == c)
    ensures forall k :: i < k < |s| ==> s[k] != c
  {
    if |s| == 0 then -1
    else if s[|s| - 1] == c then |s| - 1
    else LastIndexOf(s[..|s| - 1], c)
  }

  lemma IndexOfIs(s: string, c: char, i: nat)
    requires i < |s| && s[i] == c
    requires forall k :: 0 <= k < i ==> s[k] != c
    ensures IndexOf(s, c) == i
  {
  }

  lemma LastIndexOfIs(s: string, c: char, i: nat)
    requires i < |s| && s[i] == c
    requires forall k :: i < k < |s| ==> s[k] != c
    ensures LastIndexOf(s, c) == i
  {
  }

  /** Python's regex `$` also matches just before one final line feed. */
  predicate EndsWithNewline(s: string) {
    |s| > 0 && s[|s| - 1] == '\n'
  }
}
