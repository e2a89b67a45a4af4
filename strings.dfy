/** Strings as JavaScript sees them, restricted to what the converter uses: the
    character classes of its regular expressions, literal search with and without
    ASCII case folding, `trim`, and decimal rendering of counters. */
module Strings {

  datatype Option<T> = None | Some(value: T)

  /** JavaScript's WhiteSpace and LineTerminator characters: the class `\s`, and what
      `String.prototype.trim` removes. */
  predicate IsSpace(c: char) {
    c == '\t' || c == '\n' || c == '\U{000B}' || c == '\U{000C}' || c == '\r' || c == ' '
    || c == '\U{00A0}' || c == '\U{1680}' || ('\U{2000}' <= c <= '\U{200A}')
    || c == '\U{2028}' || c == '\U{2029}' || c == '\U{202F}' || c == '\U{205F}'
    || c == '\U{3000}' || c == '\U{FEFF}'
  }

  /** The characters that `.` does not match in a JavaScript regular expression. */
  predicate IsLineTerminator(c: char) {
    c == '\n' || c == '\r' || c == '\U{2028}' || c == '\U{2029}'
  }

  /** ASCII lower-casing. The `/i` flag compares the ASCII letters of the converter's
      patterns exactly this way (no other character folds onto an ASCII letter). */
  function Fold(c: char): (r: char)
    ensures 'A' <= c <= 'Z' ==> 'a' <= r <= 'z' && r as int == c as int + 32
    ensures !('A' <= c <= 'Z') ==> r == c
  {
    if 'A' <= c <= 'Z' then (c as int + 32) as char else c
  }

  predicate Same(a: char, b: char, ci: bool) {
    if ci then Fold(a) == Fold(b) else a == b
  }

  /** `lit` occurs in `s` at position `p`; letters compared without case when `ci`. */
  predicate At(s: string, p: nat, lit: string, ci: bool) {
    p + |lit| <= |s| && forall k :: 0 <= k < |lit| ==> Same(s[p + k], lit[k], ci)
  }

  /** The leftmost occurrence of `lit` at or after `p`: `indexOf` when `ci` is false, and
      the end of a lazy `[\s\S]*?` followed by `lit`. */
  function Find(s: string, p: nat, lit: string, ci: bool): (r: Option<nat>)
    decreases |s| - p
    ensures r.Some? ==> p <= r.value && At(s, r.value, lit, ci)
    ensures r.Some? ==> forall q :: p <= q < r.value ==> !At(s, q, lit, ci)
    ensures r.None? ==> forall q :: p <= q ==> !At(s, q, lit, ci)
  {
    if p + |lit| > |s| then None
    else if At(s, p, lit, ci) then Some(p)
    else Find(s, p + 1, lit, ci)
  }

  /** An occurrence with none before it is the one `Find` returns. */
  lemma FindFirst(s: string, p: nat, lit: string, ci: bool, j: nat)
    requires p <= j && At(s, j, lit, ci)
    requires forall q :: p <= q < j ==> !At(s, q, lit, ci)
    ensures Find(s, p, lit, ci) == Some(j)
  {
  }

  /** `String.prototype.includes` for a literal. */
  predicate Contains(s: string, lit: string) {
    Find(s, 0, lit, false).Some?
  }

  /** The first index at or after `p` holding `c`: the end of a greedy `[^c]*`. */
  function Next(s: string, p: nat, c: char): (r: Option<nat>)
    decreases |s| - p
    ensures r.Some? ==> p <= r.value < |s| && s[r.value] == c
    ensures r.Some? ==> forall q :: p <= q < r.value ==> s[q] != c
    ensures r.None? ==> forall q :: p <= q < |s| ==> s[q] != c
  {
    if p >= |s| then None
    else if s[p] == c then Some(p)
    else Next(s, p + 1, c)
  }

  /** A `c` with none before it is the one `Next` returns. */
  lemma NextFirst(s: string, p: nat, c: char, j: nat)
    requires p <= j < |s| && s[j] == c
    requires forall q :: p <= q < j ==> s[q] != c
    ensures Next(s, p, c) == Some(j)
  {
  }

  /** The first index at or after `p` that is not a space: the end of a greedy `\s*`. */
  function SkipSpace(s: string, p: nat): (r: nat)
    requires p <= |s|
    decreases |s| - p
    ensures p <= r <= |s|
    ensures forall q :: p <= q < r ==> IsSpace(s[q])
    ensures r < |s| ==> !IsSpace(s[r])
  {
    if p == |s| || !IsSpace(s[p]) then p else SkipSpace(s, p + 1)
  }

  /** Number of leading spaces. */
  function Lead(s: string): nat
    ensures Lead(s) <= |s|
  {
    if s == [] || !IsSpace(s[0]) then 0 else 1 + Lead(s[1..])
  }

  /** Length of `s` without its trailing spaces. */
  function Tail(s: string): nat
    ensures Tail(s) <= |s|
  {
    if s == [] || !IsSpace(s[|s| - 1]) then |s| else Tail(s[..|s| - 1])
  }

  /** `String.prototype.trim`. */
  function Trim(s: string): string {
    if Lead(s) < Tail(s) then s[Lead(s)..Tail(s)] else []
  }

  lemma {:induction false} LeadSpec(s: string)
    ensures forall i :: 0 <= i < Lead(s) ==> IsSpace(s[i])
    ensures Lead(s) < |s| ==> !IsSpace(s[Lead(s)])
  {
    if s != [] && IsSpace(s[0]) {
      LeadSpec(s[1..]);
      forall i | 0 < i < Lead(s) ensures IsSpace(s[i]) {
        assert s[i] == s[1..][i - 1];
      }
    }
  }

  lemma {:induction false} TailSpec(s: string)
    ensures forall i :: Tail(s) <= i < |s| ==> IsSpace(s[i])
    ensures Tail(s) > 0 ==> !IsSpace(s[Tail(s) - 1])
  {
    if s != [] && IsSpace(s[|s| - 1]) {
      var t := s[..|s| - 1];
      TailSpec(t);
      forall i | Tail(s) <= i < |s| ensures IsSpace(s[i]) {
        if i < |s| - 1 { assert s[i] == t[i]; }
      }
      if Tail(s) > 0 { assert s[Tail(s) - 1] == t[Tail(s) - 1]; }
    }
  }

  /** `trim` removes exactly the leading and trailing spaces: the result is a slice of its
      input that neither starts nor ends with a space, and everything cut off is space. */
  lemma TrimSpec(s: string)
    ensures var r := Trim(s);
      && (r != [] ==> !IsSpace(r[0]) && !IsSpace(r[|r| - 1]))
      && (r == [] <==> forall i :: 0 <= i < |s| ==> IsSpace(s[i]))
      && (r != [] ==> s[Lead(s)..Lead(s) + |r|] == r
                      && (forall i :: 0 <= i < Lead(s) ==> IsSpace(s[i]))
                      && (forall i :: Lead(s) + |r| <= i < |s| ==> IsSpace(s[i])))
  {
    LeadSpec(s);
    TailSpec(s);
    if Lead(s) >= Tail(s) {
      assert Lead(s) == |s|;
    }
  }

  /** A character absent from `s` is absent from `trim(s)`, which starts and ends with
      no space. */
  lemma TrimWithout(s: string, c: char)
    requires forall i :: 0 <= i < |s| ==> s[i] != c
    ensures c !in Trim(s)
    ensures Trim(s) != [] ==> !IsSpace(Trim(s)[0]) && !IsSpace(Trim(s)[|Trim(s)| - 1])
  {
    TrimSpec(s);
    forall k | 0 <= k < |Trim(s)| ensures Trim(s)[k] != c {
      assert Trim(s)[k] == s[Lead(s) + k];
    }
  }

  /** The prefixes a loop over `s` walks through. */
  lemma PrefixStep<T>(s: seq<T>, i: nat)
    requires i < |s|
    ensures s[..i + 1][..i] == s[..i] && s[..i + 1][i] == s[i] && |s[..i + 1]| == i + 1
  {
  }

  /** `trim` leaves a string that neither starts nor ends with a space as it is. */
  lemma TrimTrimmed(s: string)
    requires s != [] ==> !IsSpace(s[0]) && !IsSpace(s[|s| - 1])
    ensures Trim(s) == s
  {
    if s != [] {
      assert Lead(s) == 0;
      assert Tail(s) == |s|;
    }
  }

  /** A decimal digit. */
  function Digit(d: nat): (c: char)
    requires d < 10
    ensures '0' <= c <= '9'
  {
    "0123456789"[d]
  }

  /** The decimal rendering of `n`, as `${n}` gives it. */
  function NatToString(n: nat): (r: string)
    ensures r != [] && forall i :: 0 <= i < |r| ==> '0' <= r[i] <= '9'
    ensures |r| > 1 ==> r[0] != '0'
  {
    if n < 10 then [Digit(n)] else NatToString(n / 10) + [Digit(n % 10)]
  }

  /** The number a string of decimal digits spells, most significant digit first. */
  function DecimalValue(r: string): nat {
    if r == [] then 0
    else
      var c := r[|r| - 1];
      10 * DecimalValue(r[..|r| - 1]) + (if '0' <= c <= '9' then c as int - '0' as int else 0)
  }

  /** `NatToString` spells out exactly its argument. */
  lemma {:induction false} NatToStringValue(n: nat)
    ensures DecimalValue(NatToString(n)) == n
    decreases n
  {
    var r := NatToString(n);
    var d := Digit(n % 10);
    assert d as int - '0' as int == n % 10 by {
      var k := n % 10;
      assert k == 0 || k == 1 || k == 2 || k == 3 || k == 4 || k == 5 || k == 6 || k == 7 || k == 8 || k == 9;
    }
    if n < 10 {
      assert r[..|r| - 1] == [];
    } else {
      NatToStringValue(n / 10);
      assert r[..|r| - 1] == NatToString(n / 10);
    }
  }

  /** `s.toLowerCase().endsWith(suffix)` for a lower-case ASCII suffix. */
  predicate EndsWithCi(s: string, suffix: string) {
    |suffix| <= |s| && At(s, |s| - |suffix|, suffix, true)
  }

  lemma AtSplice(a: string, lit: string, b: string, ci: bool)
    ensures At(a + lit + b, |a|, lit, ci)
  {
    var s := a + lit + b;
    forall k | 0 <= k < |lit| ensures s[|a| + k] == lit[k] { }
  }

  lemma AtTail(a: string, lit: string, ci: bool)
    ensures At(a + lit, |a|, lit, ci)
  {
    forall k | 0 <= k < |lit| ensures (a + lit)[|a| + k] == lit[k] { }
  }

  /** `sub` occurs somewhere in `s`. */
  predicate Occurs(sub: string, s: string) {
    exists i :: 0 <= i <= |s| && At(s, i, sub, false)
  }

  /** What occurs in `y` occurs in `a + y + b`. */
  lemma OccursWithin(x: string, a: string, y: string, b: string)
    requires Occurs(x, y)
    ensures Occurs(x, a + y + b)
  {
    var i :| 0 <= i <= |y| && At(y, i, x, false);
    var s := a + y + b;
    forall k | 0 <= k < |x| ensures Same(s[|a| + i + k], x[k], false) {
      assert s[|a| + i + k] == y[i + k];
    }
    assert At(s, |a| + i, x, false);
  }
}
