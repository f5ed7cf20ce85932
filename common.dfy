/** Helpers shared by every game: an optional value, grid coordinates, ASCII case
    mapping, and the sequence operations the screens use (filter, de-duplication,
    reversal, substring search, a choice-driven reordering). */
module Common {

  datatype Option<T> = None | Some(value: T)

  /** A cell of a game grid. */
  datatype Pos = Pos(row: int, col: int)

  predicate IsLowerAscii(c: char) { 'a' <= c <= 'z' }
  predicate IsUpperAscii(c: char) { 'A' <= c <= 'Z' }
  predicate IsAsciiLetter(c: char) { IsLowerAscii(c) || IsUpperAscii(c) }

  /** `toUpperCase` on one character, restricted to ASCII. */
  function UpperChar(c: char): (u: char)
    ensures !IsLowerAscii(u)
    ensures IsAsciiLetter(c) <==> IsAsciiLetter(u)
    ensures !IsLowerAscii(c) ==> u == c
  {
    if IsLowerAscii(c) then (c as int - 32) as char else c
  }

  /** `toLowerCase` on one character, restricted to ASCII. */
  function LowerChar(c: char): (l: char)
    ensures !IsUpperAscii(l)
    ensures IsAsciiLetter(c) <==> IsAsciiLetter(l)
    ensures !IsUpperAscii(c) ==> l == c
  {
    if IsUpperAscii(c) then (c as int + 32) as char else c
  }

  function Upper(s: string): (r: string)
    ensures |r| == |s|
    ensures forall i :: 0 <= i < |s| ==> r[i] == UpperChar(s[i])
  {
    seq(|s|, i requires 0 <= i < |s| => UpperChar(s[i]))
  }

  function Lower(s: string): (r: string)
    ensures |r| == |s|
    ensures forall i :: 0 <= i < |s| ==> r[i] == LowerChar(s[i])
  {
    seq(|s|, i requires 0 <= i < |s| => LowerChar(s[i]))
  }

  function Reverse<T>(s: seq<T>): (r: seq<T>)
    ensures |r| == |s|
    ensures forall i :: 0 <= i < |s| ==> r[i] == s[|s| - 1 - i]
  {
    if s == [] then [] else Reverse(s[1..]) + [s[0]]
  }

  lemma ReverseTwice<T>(s: seq<T>)
    ensures Reverse(Reverse(s)) == s
  {
    var r := Reverse(Reverse(s));
    assert |r| == |s|;
    forall i | 0 <= i < |s| ensures r[i] == s[i] {
      assert r[i] == Reverse(s)[|s| - 1 - i];
    }
  }

  /** `hay.includes(needle)` for strings. */
  predicate IsSubstring(needle: string, hay: string)
  {
    exists i :: 0 <= i <= |hay| - |needle| && OccursAt(needle, hay, i)
  }

  predicate OccursAt(needle: string, hay: string, i: int)
    requires 0 <= i <= |hay| - |needle|
  {
    hay[i..i + |needle|] == needle
  }

  lemma EmptyIsSubstring(hay: string)
    ensures IsSubstring("", hay)
  {
    assert OccursAt("", hay, 0);
  }

  predicate Distinct<T(==)>(s: seq<T>)
  {
    forall i, j :: 0 <= i < j < |s| ==> s[i] != s[j]
  }

  /** `s` is an order-preserving sub-list of `t`. */
  predicate IsSubseq<T(==)>(s: seq<T>, t: seq<T>)
    decreases |t|
  {
    if s == [] then true
    else if t == [] then false
    else (s[0] == t[0] && IsSubseq(s[1..], t[1..])) || IsSubseq(s, t[1..])
  }

  lemma {:induction false} SubseqMembers<T>(s: seq<T>, t: seq<T>)
    requires IsSubseq(s, t)
    ensures forall x :: x in s ==> x in t
    decreases |t|
  {
    if s != [] && t != [] {
      if s[0] == t[0] && IsSubseq(s[1..], t[1..]) {
        SubseqMembers(s[1..], t[1..]);
        forall x | x in s ensures x in t {
          if x != s[0] { assert x in s[1..]; }
        }
      } else {
        SubseqMembers(s, t[1..]);
      }
    }
  }

  lemma {:induction false} SubseqRefl<T>(s: seq<T>)
    ensures IsSubseq(s, s)
    decreases |s|
  {
    if s != [] { SubseqRefl(s[1..]); }
  }

  /** `Array.prototype.filter`: keeps, in order, the elements satisfying `p`. */
  function Filter<T(!new)>(s: seq<T>, p: T -> bool): (r: seq<T>)
    ensures |r| <= |s|
    ensures IsSubseq(r, s)
    ensures forall i :: 0 <= i < |r| ==> p(r[i])
    ensures forall x :: x in r <==> x in s && p(x)
    ensures forall x :: p(x) ==> multiset(r)[x] == multiset(s)[x]
  {
    if s == [] then []
    else
      var rest := Filter(s[1..], p);
      assert s == [s[0]] + s[1..];
      if p(s[0]) then [s[0]] + rest else rest
  }

  lemma {:induction false} FilterAll<T(!new)>(s: seq<T>, p: T -> bool)
    requires forall i :: 0 <= i < |s| ==> p(s[i])
    ensures Filter(s, p) == s
  {
    if s != [] { FilterAll(s[1..], p); }
  }

  /** The list of the first occurrences of each element, in order
      (`[...new Set(s)]`). */
  function Dedup<T(==,!new)>(s: seq<T>): (r: seq<T>)
    ensures Distinct(r)
    ensures forall x :: x in r <==> x in s
    ensures InFirstOccurrenceOrder(r, s)
    ensures |r| <= |s|
  {
    if s == [] then []
    else
      var init, x := s[..|s| - 1], s[|s| - 1];
      var r := Dedup(init);
      assert s == init + [x];
      forall y | y in init ensures IndexOf(s, y) == IndexOf(init, y) {
        IndexOfAppend(init, x, y);
      }
      if x in r then r
      else
        IndexOfAppend(init, x, x);
        var r' := r + [x];
        assert forall i :: 0 <= i < |r| ==> r'[i] == r[i] && r[i] in init;
        r'
  }

  /** The elements of `r` come in the order of their first occurrence in `s`. */
  predicate InFirstOccurrenceOrder<T(==)>(r: seq<T>, s: seq<T>)
  {
    forall i, j :: 0 <= i < j < |r| ==> IndexOf(s, r[i]) < IndexOf(s, r[j])
  }

  /** Appending keeps the first position of an element already present, and
      puts a new element's first position at the end. */
  lemma {:induction false} IndexOfAppend<T>(s: seq<T>, x: T, y: T)
    ensures y in s ==> IndexOf(s + [x], y) == IndexOf(s, y)
    ensures y !in s && y == x ==> IndexOf(s + [x], y) == |s|
  {
    if s != [] {
      assert (s + [x])[1..] == s[1..] + [x];
      IndexOfAppend(s[1..], x, y);
    }
  }

  lemma {:induction false} DistinctCard<T>(s: seq<T>)
    requires Distinct(s)
    ensures |set x | x in s| == |s|
  {
    if s != [] {
      var init := s[..|s| - 1];
      DistinctCard(init);
      assert s == init + [s[|s| - 1]];
      assert (set x | x in s) == (set x | x in init) + {s[|s| - 1]};
    }
  }

  /** A list has at least as many entries as it has different elements. */
  lemma {:induction false} SetOfSeqCard<T>(s: seq<T>)
    ensures |set x | x in s| <= |s|
  {
    if s != [] {
      SetOfSeqCard(s[1..]);
      assert (set x | x in s) == (set x | x in s[1..]) + {s[0]};
    }
  }

  /** Two lists without repeats, with no element in common, concatenate to a
      list without repeats. */
  lemma DistinctConcat<T>(a: seq<T>, b: seq<T>)
    requires Distinct(a) && Distinct(b)
    requires forall x :: x in a ==> x !in b
    ensures Distinct(a + b)
  {
    forall i, j | 0 <= i < j < |a + b| ensures (a + b)[i] != (a + b)[j] {
      if j >= |a| && i < |a| {
        assert (a + b)[i] in a && (a + b)[j] in b;
      }
    }
  }

  /** `s.slice(0, n)`. */
  function Take<T>(s: seq<T>, n: nat): (r: seq<T>)
    ensures |r| == if n < |s| then n else |s|
    ensures r == s[..|r|]
  {
    if n < |s| then s[..n] else s
  }

  /** A prefix keeps no more of each element than the whole. */
  lemma TakeSubMultiset<T>(s: seq<T>, n: nat)
    ensures multiset(Take(s, n)) <= multiset(s)
    ensures forall x :: x in Take(s, n) ==> x in s
  {
    var r := Take(s, n);
    assert s == r + s[|r|..];
    forall x | x in r ensures x in s {
      assert multiset(r)[x] <= multiset(s)[x];
    }
  }

  /** A permutation has the same members. */
  lemma PermutationMembers<T>(s: seq<T>, t: seq<T>)
    requires multiset(s) == multiset(t)
    ensures forall x :: x in t ==> x in s
  {
    forall x | x in t ensures x in s {
      assert x in multiset(t);
    }
  }

  /** A reordering of `s` driven by supplied choices: each step moves the element
      at `picks[k] % remaining` to the output. Every permutation of `s` is
      reachable, which is all that is modelled of a shuffle or of a sort with a
      random comparator. */
  function Reorder<T>(s: seq<T>, picks: seq<nat>): (r: seq<T>)
    ensures multiset(r) == multiset(s)
    ensures |r| == |s|
    decreases |s|
  {
    if s == [] then []
    else
      var k := if picks == [] then 0 else picks[0] % |s|;
      var rest := s[..k] + s[k + 1..];
      RemoveAt(s, k);
      [s[k]] + Reorder(rest, if picks == [] then [] else picks[1..])
  }

  /** Taking out the element at `k` leaves the rest of the multiset. */
  lemma RemoveAt<T>(s: seq<T>, k: nat)
    requires k < |s|
    ensures |s[..k] + s[k + 1..]| == |s| - 1
    ensures multiset(s) == multiset([s[k]]) + multiset(s[..k] + s[k + 1..])
  {
    assert s == s[..k] + [s[k]] + s[k + 1..];
  }

  /** Elements of a permutation of a distinct list are distinct. */
  lemma PermutationDistinct<T>(s: seq<T>, t: seq<T>)
    requires multiset(s) == multiset(t)
    requires Distinct(s)
    ensures Distinct(t)
  {
    forall i, j | 0 <= i < j < |t| ensures t[i] != t[j] {
      if t[i] == t[j] {
        assert multiset(t)[t[i]] >= 2 by {
          assert t == t[..i] + [t[i]] + t[i + 1..j] + [t[j]] + t[j + 1..];
        }
        MultiplicityOne(s, t[i]);
      }
    }
  }

  lemma {:induction false} MultiplicityOne<T>(s: seq<T>, x: T)
    requires Distinct(s)
    ensures multiset(s)[x] <= 1
  {
    if s != [] {
      MultiplicityOne(s[1..], x);
      assert s == [s[0]] + s[1..];
      if s[0] == x { assert x !in s[1..]; }
    }
  }

  /** `Array.prototype.find`: the first element satisfying `p`. */
  function FindFirst<T(==)>(s: seq<T>, p: T -> bool): (r: Option<T>)
    ensures r.None? <==> forall i :: 0 <= i < |s| ==> !p(s[i])
    ensures r.Some? ==> exists i :: 0 <= i < |s| && s[i] == r.value && p(r.value) &&
                                    forall j :: 0 <= j < i ==> !p(s[j])
  {
    if s == [] then None
    else if p(s[0]) then Some(s[0])
    else
      var r := FindFirst(s[1..], p);
      if r.Some? then
        var i :| 0 <= i < |s[1..]| && s[1..][i] == r.value && p(r.value) &&
                 forall j :: 0 <= j < i ==> !p(s[1..][j]);
        assert s[i + 1] == r.value;
        assert forall j :: 1 <= j < i + 1 ==> s[j] == s[1..][j - 1];
        r
      else
        assert forall i :: 1 <= i < |s| ==> s[i] == s[1..][i - 1];
        r
  }

  /** Two tests that agree on every element find the same one. */
  lemma {:induction false} FindFirstAgree<T>(s: seq<T>, p: T -> bool, q: T -> bool)
    requires forall i :: 0 <= i < |s| ==> p(s[i]) == q(s[i])
    ensures FindFirst(s, p) == FindFirst(s, q)
  {
    if s != [] && !p(s[0]) {
      FindFirstAgree(s[1..], p, q);
    }
  }


  /** `Array.prototype.findIndex` for a value: -1 when it does not occur. */
  function IndexOf<T(==)>(s: seq<T>, x: T): (k: int)
    ensures -1 <= k < |s|
    ensures k == -1 <==> x !in s
    ensures k >= 0 ==> s[k] == x && x !in s[..k]
  {
    if s == [] then -1
    else if s[0] == x then 0
    else
      var k := IndexOf(s[1..], x);
      assert x !in s[1..] ==> x !in s by {
        assert s == [s[0]] + s[1..];
      }
      if k == -1 then -1
      else
        assert s[..k + 1] == [s[0]] + s[1..][..k];
        k + 1
  }

  /** In a sequence without repeats, an element is found at its own index. */
  lemma {:induction false} IndexOfDistinct<T>(s: seq<T>, i: nat)
    requires Distinct(s) && i < |s|
    ensures IndexOf(s, s[i]) == i
  {
    if i > 0 {
      assert s[0] != s[i];
      assert Distinct(s[1..]) by {
        forall a, b | 0 <= a < b < |s[1..]| ensures s[1..][a] != s[1..][b] {
          assert s[1..][a] == s[a + 1] && s[1..][b] == s[b + 1];
        }
      }
      IndexOfDistinct(s[1..], i - 1);
      assert s[1..][i - 1] == s[i];
    }
  }

  /** `s.filter(e => e !== x)`. */
  function Without<T(==,!new)>(s: seq<T>, x: T): (r: seq<T>)
    ensures x !in r
    ensures forall y :: y != x ==> (y in r <==> y in s)
    ensures IsSubseq(r, s)
  {
    if s == [] then []
    else
      var rest := Without(s[1..], x);
      assert forall y :: y in s <==> y == s[0] || y in s[1..] by {
        assert s == [s[0]] + s[1..];
      }
      if s[0] == x then rest else [s[0]] + rest
  }

  predicate SortedDesc<T>(s: seq<T>, key: T -> int)
  {
    forall i, j :: 0 <= i < j < |s| ==> key(s[i]) >= key(s[j])
  }

  /** Inserts `x` after the elements with a larger key and before the others,
      so that it stays ahead of later elements with the same key. */
  function InsertDesc<T>(x: T, s: seq<T>, key: T -> int): (r: seq<T>)
    ensures multiset(r) == multiset(s) + multiset{x}
    ensures |r| == |s| + 1
  {
    if s == [] || key(s[0]) <= key(x) then [x] + s
    else
      assert s == [s[0]] + s[1..];
      [s[0]] + InsertDesc(x, s[1..], key)
  }

  predicate KeysAtMost<T>(s: seq<T>, key: T -> int, bound: int)
  {
    forall i :: 0 <= i < |s| ==> key(s[i]) <= bound
  }

  lemma {:induction false} InsertDescBounded<T>(x: T, s: seq<T>, key: T -> int, bound: int)
    requires KeysAtMost(s, key, bound) && key(x) <= bound
    ensures KeysAtMost(InsertDesc(x, s, key), key, bound)
  {
    if s == [] || key(s[0]) <= key(x) {
    } else {
      InsertDescBounded(x, s[1..], key, bound);
    }
  }

  lemma {:induction false} InsertDescSorted<T>(x: T, s: seq<T>, key: T -> int)
    requires SortedDesc(s, key)
    ensures SortedDesc(InsertDesc(x, s, key), key)
  {
    if s == [] || key(s[0]) <= key(x) {
    } else {
      var rest := InsertDesc(x, s[1..], key);
      InsertDescSorted(x, s[1..], key);
      InsertDescBounded(x, s[1..], key, key(s[0]));
      assert InsertDesc(x, s, key) == [s[0]] + rest;
    }
  }

  /** The elements of `s` whose key is `v`, in order. */
  function WithKey<T>(s: seq<T>, key: T -> int, v: int): seq<T>
  {
    if s == [] then []
    else (if key(s[0]) == v then [s[0]] else []) + WithKey(s[1..], key, v)
  }

  /** Inserting `x` puts it ahead of every element with its key. */
  lemma {:induction false} InsertDescStable<T>(x: T, s: seq<T>, key: T -> int, v: int)
    ensures WithKey(InsertDesc(x, s, key), key, v) == (if key(x) == v then [x] else []) + WithKey(s, key, v)
  {
    var r := InsertDesc(x, s, key);
    if s == [] || key(s[0]) <= key(x) {
      assert r == [x] + s;
      assert r[1..] == s;
    } else {
      var rest := InsertDesc(x, s[1..], key);
      assert r == [s[0]] + rest;
      assert r[1..] == rest;
      InsertDescStable(x, s[1..], key, v);
    }
  }

  /** The first element with key `v` is at the first index whose key is `v`. */
  lemma {:induction false} WithKeyFirst<T>(s: seq<T>, key: T -> int, v: int)
    requires WithKey(s, key, v) != []
    ensures exists i :: 0 <= i < |s| && s[i] == WithKey(s, key, v)[0] && key(s[i]) == v &&
                        forall j :: 0 <= j < i ==> key(s[j]) != v
  {
    if key(s[0]) == v {
      assert s[0] == WithKey(s, key, v)[0];
    } else {
      WithKeyFirst(s[1..], key, v);
      var k :| 0 <= k < |s[1..]| && s[1..][k] == WithKey(s[1..], key, v)[0] && key(s[1..][k]) == v &&
        forall j :: 0 <= j < k ==> key(s[1..][j]) != v;
      forall j | 0 <= j < k + 1 ensures key(s[j]) != v {
        if j > 0 {
          assert s[j] == s[1..][j - 1];
        }
      }
      assert s[k + 1] == s[1..][k];
    }
  }

  /** A stable sort by decreasing key (JavaScript's `sort` is stable):
      the elements of each key keep their order. */
  function SortDesc<T>(s: seq<T>, key: T -> int): (r: seq<T>)
    ensures multiset(r) == multiset(s)
    ensures |r| == |s|
    ensures SortedDesc(r, key)
    ensures forall v :: WithKey(r, key, v) == WithKey(s, key, v)
  {
    if s == [] then []
    else
      assert s == [s[0]] + s[1..];
      var rest := SortDesc(s[1..], key);
      InsertDescSorted(s[0], rest, key);
      forall v ensures WithKey(InsertDesc(s[0], rest, key), key, v) == WithKey(s, key, v) {
        InsertDescStable(s[0], rest, key, v);
      }
      InsertDesc(s[0], rest, key)
  }

  function Max(a: int, b: int): int { if a < b then b else a }

  /** `r` is `Math.round(100 * part / whole)`: the integer nearest to the
      exact percentage, a half-way value going up (r - 1/2 <= 100·part/whole
      < r + 1/2, multiplied out by 2·whole). */
  predicate IsRoundedPercent(r: int, part: int, whole: int)
  {
    2 * whole * r <= 200 * part + whole < 2 * whole * (r + 1)
  }

  /** `Math.round(100 * part / whole)` with exact rational arithmetic. */
  function RoundPercent(part: nat, whole: nat): (r: nat)
    requires whole > 0
    ensures IsRoundedPercent(r, part, whole)
  {
    var n, d := 200 * part + whole, 2 * whole;
    assert n == d * (n / d) + n % d;
    n / d
  }

  /** At most one integer is the rounded percentage. */
  lemma RoundedPercentUnique(a: nat, b: nat, part: int, whole: int)
    requires whole > 0
    requires IsRoundedPercent(a, part, whole) && IsRoundedPercent(b, part, whole)
    ensures a == b
  {
    var k := 2 * whole;
    MulNonNegative(k, a - (b + 1));
    MulNonNegative(k, b - (a + 1));
    assert k * (a - (b + 1)) == k * a - k * (b + 1);
    assert k * (b - (a + 1)) == k * b - k * (a + 1);
  }

  lemma MulNonNegative(k: int, z: int)
    ensures k >= 0 && z >= 0 ==> k * z >= 0
  {
  }

  /** A share of at most the whole rounds to at most 100 percent, and the
      whole rounds to exactly 100. */
  lemma RoundPercentBounds(part: nat, whole: nat)
    requires whole > 0
    ensures part <= whole ==> RoundPercent(part, whole) <= 100
    ensures part == whole ==> RoundPercent(part, whole) == 100
  {
    var n, d := 200 * part + whole, 2 * whole;
    if part <= whole {
      assert n < 101 * d;
      QuotientBelow(n, d, 101);
    }
    if part == whole {
      assert 100 * d <= n < 101 * d;
      QuotientIs(n, d, 100);
    }
  }

  lemma QuotientBelow(n: nat, d: nat, k: nat)
    requires d > 0 && n < k * d
    ensures n / d < k
  {
  }

  lemma QuotientIs(n: nat, d: nat, q: nat)
    requires d > 0 && q * d <= n < (q + 1) * d
    ensures n / d == q
  {
    QuotientBelow(n, d, q + 1);
    var r := n / d;
    if r < q {
      assert n == r * d + n % d;
      MulMonotone(r + 1, q, d);
    }
  }

  lemma MulMonotone(a: nat, b: nat, d: nat)
    requires a <= b
    ensures a * d <= b * d
  {
    assert b * d == a * d + (b - a) * d;
  }
}
