/** The order in which `Array.prototype.sort` without a comparator puts strings: by UTF-16
    code units, a shorter string before every longer string it begins. */
module PathOrder {

  /** The first UTF-16 code unit of `c`: the character itself in the Basic Multilingual
      Plane, its high surrogate above it. */
  function Unit(c: char): (u: int)
    ensures 0 <= u < 0x10000
    ensures c as int < 0x10000 ==> u == c as int
    ensures c as int >= 0x10000 ==> 0xD800 <= u < 0xDC00
  {
    if c as int < 0x10000 then c as int else 0xD800 + (c as int - 0x10000) / 0x400
  }

  /** `a` sorts before `b`: by the first code unit, then (two characters sharing a high
      surrogate) by the second, which follows the code point. */
  predicate CharBelow(a: char, b: char) {
    Unit(a) < Unit(b) || (Unit(a) == Unit(b) && a < b)
  }

  lemma CharOrder(a: char, b: char, c: char)
    ensures !CharBelow(a, a)
    ensures a != b ==> CharBelow(a, b) || CharBelow(b, a)
    ensures CharBelow(a, b) ==> !CharBelow(b, a)
    ensures CharBelow(a, b) && CharBelow(b, c) ==> CharBelow(a, c)
  {
  }

  /** `x` sorts strictly before `y`. */
  predicate Below(x: string, y: string)
    decreases |x|
  {
    if x == [] then y != []
    else if y == [] then false
    else if x[0] == y[0] then Below(x[1..], y[1..])
    else CharBelow(x[0], y[0])
  }

  /** `Below` is a strict total order on strings. */
  lemma {:induction false} BelowIrreflexive(x: string)
    ensures !Below(x, x)
    decreases |x|
  {
    if x != [] { BelowIrreflexive(x[1..]); }
  }

  lemma {:induction false} BelowTotal(x: string, y: string)
    requires x != y
    ensures Below(x, y) || Below(y, x)
    decreases |x|
  {
    if x != [] && y != [] {
      if x[0] == y[0] {
        assert x == [x[0]] + x[1..] && y == [y[0]] + y[1..];
        BelowTotal(x[1..], y[1..]);
      } else {
        CharOrder(x[0], y[0], y[0]);
      }
    }
  }

  lemma {:induction false} BelowAsymmetric(x: string, y: string)
    requires Below(x, y)
    ensures !Below(y, x)
    decreases |x|
  {
    if x != [] && x[0] == y[0] {
      BelowAsymmetric(x[1..], y[1..]);
    } else if x != [] {
      CharOrder(x[0], y[0], y[0]);
    }
  }

  lemma {:induction false} BelowTransitive(x: string, y: string, z: string)
    requires Below(x, y) && Below(y, z)
    ensures Below(x, z)
    decreases |x|
  {
    if x != [] {
      if x[0] == y[0] && y[0] == z[0] {
        BelowTransitive(x[1..], y[1..], z[1..]);
      } else {
        CharOrder(x[0], y[0], z[0]);
      }
    }
  }

  /** Ascending: no string sorts before one ahead of it. */
  predicate Sorted(xs: seq<string>) {
    forall i, j :: 0 <= i < j < |xs| ==> !Below(xs[j], xs[i])
  }

  /** `y` inserted into an ascending sequence, before the first string it sorts before. */
  function Insert(y: string, xs: seq<string>): (r: seq<string>)
    ensures multiset(r) == multiset(xs) + multiset{y}
  {
    if xs == [] || Below(y, xs[0]) then [y] + xs
    else
      assert xs == [xs[0]] + xs[1..];
      [xs[0]] + Insert(y, xs[1..])
  }

  /** The strings in ascending order. */
  function Sort(xs: seq<string>): (r: seq<string>)
    ensures multiset(r) == multiset(xs)
  {
    if xs == [] then []
    else
      assert xs == [xs[0]] + xs[1..];
      Insert(xs[0], Sort(xs[1..]))
  }

  /** What `Insert` puts first. */
  lemma InsertHead(y: string, xs: seq<string>)
    ensures Insert(y, xs) != []
    ensures Insert(y, xs)[0] == if xs == [] || Below(y, xs[0]) then y else xs[0]
  {
  }

  lemma MultisetCons(xs: seq<string>)
    requires xs != []
    ensures multiset(xs) == multiset{xs[0]} + multiset(xs[1..])
  {
    assert xs == [xs[0]] + xs[1..];
  }

  /** A string that sorts before the first of an ascending sequence can go in front. */
  lemma InsertFront(y: string, xs: seq<string>)
    requires Sorted(xs) && (xs == [] || Below(y, xs[0]))
    ensures Sorted([y] + xs)
  {
    var r := [y] + xs;
    forall i, j | 0 <= i < j < |r| ensures !Below(r[j], r[i]) {
      if i == 0 {
        assert r[j] == xs[j - 1];
        if j > 1 {
          if Below(xs[j - 1], y) { BelowTransitive(xs[j - 1], y, xs[0]); }
        } else {
          BelowAsymmetric(y, xs[0]);
        }
      } else {
        assert r[i] == xs[i - 1] && r[j] == xs[j - 1];
      }
    }
  }

  /** The first of an ascending sequence stays in front of the rest with `y` inserted,
      when `y` does not sort before it. */
  lemma InsertBehind(y: string, xs: seq<string>, u: seq<string>)
    requires Sorted(xs) && xs != [] && !Below(y, xs[0])
    requires Sorted(u) && multiset(u) == multiset(xs[1..]) + multiset{y}
    ensures Sorted([xs[0]] + u)
  {
    var t := xs[1..];
    var r := [xs[0]] + u;
    forall j | 0 <= j < |u| ensures !Below(u[j], xs[0]) {
      assert u[j] in multiset(u);
      if u[j] == y {
        if y != xs[0] { BelowTotal(y, xs[0]); BelowAsymmetric(xs[0], y); }
        else { BelowIrreflexive(y); }
      } else {
        assert u[j] in multiset(t);
        var k :| 0 <= k < |t| && t[k] == u[j];
        assert xs[k + 1] == t[k];
      }
    }
    forall i, j | 0 <= i < j < |r| ensures !Below(r[j], r[i]) {
      assert r[j] == u[j - 1];
      if i > 0 { assert r[i] == u[i - 1]; }
    }
  }

  lemma {:induction false} InsertSorted(y: string, xs: seq<string>)
    requires Sorted(xs)
    ensures Sorted(Insert(y, xs))
    decreases |xs|
  {
    if xs == [] || Below(y, xs[0]) {
      InsertFront(y, xs);
    } else {
      SortedTail(xs);
      InsertSorted(y, xs[1..]);
      InsertBehind(y, xs, Insert(y, xs[1..]));
    }
  }

  /** `Sort` puts the strings in ascending order, keeping every one of them. */
  lemma {:induction false} SortSorted(xs: seq<string>)
    ensures Sorted(Sort(xs)) && multiset(Sort(xs)) == multiset(xs)
    decreases |xs|
  {
    if xs != [] {
      SortSorted(xs[1..]);
      InsertSorted(xs[0], Sort(xs[1..]));
    }
  }

  /** Strings that are all different. */
  predicate Distinct(xs: seq<string>) {
    forall i, j :: 0 <= i < j < |xs| ==> xs[i] != xs[j]
  }

  /** Two ascending arrangements of the same strings start with the same one. */
  lemma SortedHead(xs: seq<string>, ys: seq<string>)
    requires Sorted(xs) && Sorted(ys) && multiset(xs) == multiset(ys) && xs != []
    ensures ys != [] && xs[0] == ys[0]
  {
    assert xs[0] in multiset(ys);
    var a, b := xs[0], ys[0];
    assert b in multiset(xs) by { assert b in multiset(ys); }
    var i :| 0 <= i < |ys| && ys[i] == a;
    var k :| 0 <= k < |xs| && xs[k] == b;
    if a != b {
      BelowTotal(a, b);
    }
  }

  lemma SortedTail(xs: seq<string>)
    requires Sorted(xs) && xs != []
    ensures Sorted(xs[1..])
  {
    var t := xs[1..];
    forall p, q | 0 <= p < q < |t| ensures !Below(t[q], t[p]) { assert t[q] == xs[q + 1] && t[p] == xs[p + 1]; }
  }

  lemma DistinctTail(xs: seq<string>)
    requires Distinct(xs) && xs != []
    ensures Distinct(xs[1..])
  {
    var t := xs[1..];
    forall p, q | 0 <= p < q < |t| ensures t[p] != t[q] { assert t[q] == xs[q + 1] && t[p] == xs[p + 1]; }
  }

  /** Different strings have one ascending order: any two ascending arrangements of them
      are equal. */
  lemma {:induction false} SortedUnique(xs: seq<string>, ys: seq<string>)
    requires Sorted(xs) && Sorted(ys) && Distinct(xs) && multiset(xs) == multiset(ys)
    ensures xs == ys
    decreases |xs|
  {
    if xs != [] {
      SortedHead(xs, ys);
      MultisetCons(xs);
      MultisetCons(ys);
      assert multiset(xs[1..]) == multiset(xs) - multiset{xs[0]};
      assert multiset(ys[1..]) == multiset(ys) - multiset{ys[0]};
      SortedTail(xs);
      SortedTail(ys);
      DistinctTail(xs);
      SortedUnique(xs[1..], ys[1..]);
    } else {
      assert |ys| == 0 by { assert |multiset(ys)| == |multiset(xs)|; }
    }
  }

  /** So for different paths `Sort` is exactly what an ascending sort must return. */
  lemma SortIsTheSort(xs: seq<string>, ys: seq<string>)
    requires Distinct(xs) && Sorted(ys) && multiset(ys) == multiset(xs)
    ensures ys == Sort(xs)
  {
    SortSorted(xs);
    DistinctPermuted(xs, Sort(xs));
    SortedUnique(Sort(xs), ys);
  }

  lemma DistinctPermuted(xs: seq<string>, ys: seq<string>)
    requires Distinct(xs) && multiset(xs) == multiset(ys)
    ensures Distinct(ys)
  {
    forall i, j | 0 <= i < j < |ys| ensures ys[i] != ys[j] {
      if ys[i] == ys[j] {
        var m := multiset(ys);
        assert multiset(ys[..i] + ys[i..j] + ys[j..]) == m by { assert ys[..i] + ys[i..j] + ys[j..] == ys; }
        assert m[ys[i]] >= 2 by {
          assert ys[i] in multiset(ys[i..j]) by { assert ys[i..j][0] == ys[i]; }
          assert ys[j] in multiset(ys[j..]) by { assert ys[j..][0] == ys[j]; }
        }
        DistinctCount(xs, ys[i]);
      }
    }
  }

  lemma {:induction false} DistinctCount(xs: seq<string>, y: string)
    requires Distinct(xs)
    ensures multiset(xs)[y] <= 1
    decreases |xs|
  {
    if xs != [] {
      var t := xs[1..];
      assert xs == [xs[0]] + t;
      DistinctTail(xs);
      DistinctCount(t, y);
      if y == xs[0] {
        assert y !in multiset(t) by {
          forall k | 0 <= k < |t| ensures t[k] != y { assert t[k] == xs[k + 1]; }
        }
      }
    }
  }
}
