/** The `ORDER BY text ASC, stamp ASC` clause of the SQLite queries: text is
    compared with the default BINARY collation (code point by code point,
    a proper prefix first), the creation stamp numerically. Rows that tie
    on both keys come back in an order SQLite does not specify, so what is
    promised here is only that the result is sorted and a permutation. */
module OrderBy {

  /** A sort key: a text column followed by a creation stamp. */
  datatype SortKey = SortKey(text: string, stamp: int)

  /** `a <= b` under the BINARY collation. */
  predicate TextLe(a: string, b: string) {
    if a == [] then true
    else if b == [] then false
    else if a[0] != b[0] then a[0] < b[0]
    else TextLe(a[1..], b[1..])
  }

  lemma {:induction false} TextLeTotal(a: string, b: string)
    ensures TextLe(a, b) || TextLe(b, a)
  {
    if a != [] && b != [] && a[0] == b[0] {
      TextLeTotal(a[1..], b[1..]);
    }
  }

  lemma {:induction false} TextLeAntisymmetric(a: string, b: string)
    requires TextLe(a, b) && TextLe(b, a)
    ensures a == b
  {
    if a != [] && b != [] {
      TextLeAntisymmetric(a[1..], b[1..]);
      assert a == [a[0]] + a[1..];
      assert b == [b[0]] + b[1..];
    }
  }

  lemma {:induction false} TextLeTransitive(a: string, b: string, c: string)
    requires TextLe(a, b) && TextLe(b, c)
    ensures TextLe(a, c)
  {
    if a != [] && b != [] && c != [] && a[0] == b[0] == c[0] {
      TextLeTransitive(a[1..], b[1..], c[1..]);
    }
  }

  /** The two-column ordering: text first, the stamp breaking text ties. */
  predicate KeyLe(x: SortKey, y: SortKey) {
    (TextLe(x.text, y.text) && x.text != y.text) || (x.text == y.text && x.stamp <= y.stamp)
  }

  lemma KeyLeTotal(x: SortKey, y: SortKey)
    ensures KeyLe(x, y) || KeyLe(y, x)
  {
    TextLeTotal(x.text, y.text);
  }

  lemma KeyLeTransitive(x: SortKey, y: SortKey, z: SortKey)
    requires KeyLe(x, y) && KeyLe(y, z)
    ensures KeyLe(x, z)
  {
    if x.text != y.text && y.text != z.text {
      TextLeTransitive(x.text, y.text, z.text);
      if x.text == z.text {
        TextLeAntisymmetric(x.text, y.text);
      }
    }
  }

  /** `s` is in ascending order of `key`. */
  predicate Sorted<T>(s: seq<T>, key: T -> SortKey) {
    forall i, j :: 0 <= i < j < |s| ==> KeyLe(key(s[i]), key(s[j]))
  }

  /** Putting an element no greater than any other in front keeps a
      sequence sorted. */
  lemma PrependSorted<T>(x: T, s: seq<T>, key: T -> SortKey)
    requires Sorted(s, key)
    requires forall y :: y in s ==> KeyLe(key(x), key(y))
    ensures Sorted([x] + s, key)
  {
    var r := [x] + s;
    forall i, j | 0 <= i < j < |r| ensures KeyLe(key(r[i]), key(r[j])) {
      assert r[j] == s[j - 1];
      if i > 0 {
        assert r[i] == s[i - 1];
      } else {
        assert r[j] in s;
      }
    }
  }

  /** In a sorted sequence the head is no greater than any element. */
  lemma HeadIsLeast<T>(s: seq<T>, key: T -> SortKey)
    requires Sorted(s, key) && s != []
    ensures forall y :: y in s ==> KeyLe(key(s[0]), key(y))
  {
    forall y | y in s ensures KeyLe(key(s[0]), key(y)) {
      var j :| 0 <= j < |s| && s[j] == y;
      if j == 0 {
        KeyLeTotal(key(y), key(y));
      }
    }
  }

  /** Inserts `x` into the sorted `s` before the first element it does not
      exceed. */
  function Insert<T>(x: T, s: seq<T>, key: T -> SortKey): (r: seq<T>)
    requires Sorted(s, key)
    ensures Sorted(r, key)
    ensures multiset(r) == multiset(s) + multiset{x}
  {
    if s == [] then [x]
    else if KeyLe(key(x), key(s[0])) then
      HeadIsLeast(s, key);
      assert forall y :: y in s ==> KeyLe(key(x), key(y)) by {
        forall y | y in s ensures KeyLe(key(x), key(y)) {
          KeyLeTransitive(key(x), key(s[0]), key(y));
        }
      }
      PrependSorted(x, s, key);
      [x] + s
    else
      var tail := s[1..];
      assert s == [s[0]] + tail;
      var rest := Insert(x, tail, key);
      KeyLeTotal(key(x), key(s[0]));
      HeadIsLeast(s, key);
      assert forall y :: y in rest ==> KeyLe(key(s[0]), key(y)) by {
        forall y | y in rest ensures KeyLe(key(s[0]), key(y)) {
          assert y in multiset(rest);
          assert y == x || y in tail;
        }
      }
      assert Sorted(tail, key) by {
        forall i, j | 0 <= i < j < |tail| ensures KeyLe(key(tail[i]), key(tail[j])) {
          assert tail[i] == s[i + 1] && tail[j] == s[j + 1];
        }
      }
      PrependSorted(s[0], rest, key);
      [s[0]] + rest
  }

  /** What `ORDER BY` returns: the rows of `s` in ascending key order. */
  function SortBy<T>(s: seq<T>, key: T -> SortKey): (r: seq<T>)
    ensures Sorted(r, key)
    ensures multiset(r) == multiset(s)
    ensures |r| == |s|
  {
    if s == [] then []
    else
      assert s == [s[0]] + s[1..];
      var r := Insert(s[0], SortBy(s[1..], key), key);
      assert |r| == |multiset(r)|;
      r
  }
}
