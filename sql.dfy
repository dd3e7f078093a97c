/** The relational primitives the route handlers issue against SQLite, on a
    table held as a sequence of rows in rowid order. A WHERE clause is a
    predicate on rows; `id` projects a row's INTEGER PRIMARY KEY. */
module Sql {
  import opened Js

  /** `a = b` in a WHERE clause: a comparison with NULL is never true. */
  predicate SqlEq(a: Option<int>, b: Option<int>) {
    a.Some? && b.Some? && a.value == b.value
  }

  /** The clause `WHERE id = k`. */
  function KeyIs<R>(id: R -> int, k: int): R -> bool {
    r => id(r) == k
  }

  /** The table invariant an AUTOINCREMENT key keeps: rows in strictly
      ascending key order, every key positive and at most `top`, the largest
      key ever handed out. */
  ghost predicate KeysAscending<R>(s: seq<R>, id: R -> int, top: int) {
    && (forall i, j :: 0 <= i < j < |s| ==> id(s[i]) < id(s[j]))
    && (forall i :: 0 <= i < |s| ==> 0 < id(s[i]) <= top)
  }

  /** `SELECT ... WHERE id = k` through `db.get`: the first matching row. */
  function Find<R>(s: seq<R>, id: R -> int, k: int): (r: Option<nat>)
    ensures r.None? <==> forall i :: 0 <= i < |s| ==> id(s[i]) != k
    ensures r.Some? ==> r.value < |s| && id(s[r.value]) == k
    ensures r.Some? ==> forall i :: 0 <= i < r.value ==> id(s[i]) != k
  {
    if s == [] then None
    else if id(s[0]) == k then Some(0)
    else match Find(s[1..], id, k)
      case None => None
      case Some(j) => Some(j + 1)
  }

  /** `SELECT COUNT(*) ... WHERE cond`, and `this.changes` of an UPDATE or
      DELETE with that clause. */
  function CountWhere<R>(s: seq<R>, cond: R -> bool): (n: nat)
    ensures n <= |s|
  {
    if s == [] then 0
    else (if cond(s[0]) then 1 else 0) + CountWhere(s[1..], cond)
  }

  /** The count is zero exactly when no row matches. */
  lemma {:induction false} CountWhereZero<R>(s: seq<R>, cond: R -> bool)
    ensures CountWhere(s, cond) == 0 <==> forall i :: 0 <= i < |s| ==> !cond(s[i])
  {
    if s != [] {
      CountWhereZero(s[1..], cond);
      assert forall i :: 0 < i < |s| ==> s[i] == s[1..][i - 1];
    }
  }

  /** `DELETE FROM t WHERE cond`: every matching row goes, the others stay
      in their order. */
  function DeleteWhere<R>(s: seq<R>, cond: R -> bool): (r: seq<R>)
    ensures |r| == |s| - CountWhere(s, cond)
  {
    if s == [] then []
    else if cond(s[0]) then DeleteWhere(s[1..], cond)
    else [s[0]] + DeleteWhere(s[1..], cond)
  }

  /** The rows a DELETE keeps are exactly those not matching its clause. */
  lemma {:induction false} DeleteWhereMembers<R(!new)>(s: seq<R>, cond: R -> bool)
    ensures forall x :: x in DeleteWhere(s, cond) <==> x in s && !cond(x)
  {
    if s != [] {
      DeleteWhereMembers(s[1..], cond);
      assert s == [s[0]] + s[1..];
    }
  }

  /** After `DELETE ... WHERE cond` no row left matches `cond`. */
  lemma DeleteLeavesNoMatch<R(!new)>(s: seq<R>, cond: R -> bool)
    ensures forall i :: 0 <= i < |DeleteWhere(s, cond)| ==> !cond(DeleteWhere(s, cond)[i])
  {
    var r := DeleteWhere(s, cond);
    DeleteWhereMembers(s, cond);
    forall i | 0 <= i < |r| ensures !cond(r[i]) {
      assert r[i] in r;
    }
  }

  /** Counting over a table with row `j` taken out misses only row `j`. */
  lemma {:induction false} CountWhereWithout<R>(s: seq<R>, j: nat, cond: R -> bool)
    requires j < |s|
    ensures CountWhere(s, cond) == CountWhere(s[..j] + s[j + 1..], cond) + (if cond(s[j]) then 1 else 0)
  {
    if j == 0 {
      assert s[..0] + s[1..] == s[1..];
    } else {
      var tail := s[1..];
      CountWhereWithout(tail, j - 1, cond);
      var without := s[..j] + s[j + 1..];
      assert without[0] == s[0];
      assert without[1..] == tail[..j - 1] + tail[j..];
      assert tail[j - 1] == s[j];
    }
  }

  /** Find only looks at keys: two tables with the same keys row by row
      give the same answer. */
  lemma {:induction false} FindSameKeys<R>(s: seq<R>, t: seq<R>, id: R -> int, k: int)
    requires |s| == |t|
    requires forall i :: 0 <= i < |s| ==> id(s[i]) == id(t[i])
    ensures Find(s, id, k) == Find(t, id, k)
  {
    if s != [] {
      FindSameKeys(s[1..], t[1..], id, k);
    }
  }

  /** Appending a row with the next key keeps the invariant one key higher. */
  lemma AppendKeepsKeys<R>(s: seq<R>, id: R -> int, top: int, x: R)
    requires KeysAscending(s, id, top)
    requires top >= 0 && id(x) == top + 1
    ensures KeysAscending(s + [x], id, top + 1)
  {
    var t := s + [x];
    assert forall i :: 0 <= i < |s| ==> t[i] == s[i];
    assert t[|s|] == x;
  }

  /** The invariant holds of every suffix of the table. */
  lemma TailKeys<R>(s: seq<R>, id: R -> int, top: int)
    requires KeysAscending(s, id, top) && s != []
    ensures KeysAscending(s[1..], id, top)
  {
    var tail := s[1..];
    forall i, j | 0 <= i < j < |tail| ensures id(tail[i]) < id(tail[j]) {
      assert tail[i] == s[i + 1] && tail[j] == s[j + 1];
    }
    forall i | 0 <= i < |tail| ensures 0 < id(tail[i]) <= top {
      assert tail[i] == s[i + 1];
    }
  }

  /** Deleting rows keeps the keys ascending and within the counter. */
  lemma {:induction false} DeleteKeepsKeys<R(!new)>(s: seq<R>, id: R -> int, cond: R -> bool, top: int)
    requires KeysAscending(s, id, top)
    ensures KeysAscending(DeleteWhere(s, cond), id, top)
  {
    if s != [] {
      var tail := s[1..];
      TailKeys(s, id, top);
      var rest := DeleteWhere(tail, cond);
      DeleteWhereMembers(tail, cond);
      DeleteKeepsKeys(tail, id, cond, top);
      if !cond(s[0]) {
        var r := [s[0]] + rest;
        forall j | 0 < j < |r| ensures id(s[0]) < id(r[j]) {
          assert r[j] == rest[j - 1];
          assert r[j] in tail;
          var m :| 0 <= m < |tail| && tail[m] == r[j];
          assert s[m + 1] == r[j];
        }
        assert forall j :: 0 < j < |r| ==> r[j] == rest[j - 1];
      }
    }
  }

  /** Under ascending keys, looking up the key of row `j` finds row `j`. */
  lemma FindUnique<R>(s: seq<R>, id: R -> int, j: nat, top: int)
    requires KeysAscending(s, id, top)
    requires j < |s|
    ensures Find(s, id, id(s[j])) == Some(j)
  {
  }

  /** Under ascending keys a key names at most one row, and the row Find
      returns is that one. */
  lemma {:induction false} KeyNamesOneRow<R>(s: seq<R>, id: R -> int, k: int, top: int)
    requires KeysAscending(s, id, top)
    ensures CountWhere(s, KeyIs(id, k)) <= 1
    ensures Find(s, id, k).Some? <==> CountWhere(s, KeyIs(id, k)) == 1
  {
    if s != [] {
      TailKeys(s, id, top);
      KeyNamesOneRow(s[1..], id, k, top);
      if id(s[0]) == k {
        forall i | 0 <= i < |s[1..]| ensures !KeyIs(id, k)(s[1..][i]) {
          assert s[1..][i] == s[i + 1];
        }
        CountWhereZero(s[1..], KeyIs(id, k));
      }
    }
  }

  /** A DELETE whose WHERE matches no row changes nothing. */
  lemma {:induction false} DeleteNothing<R(!new)>(s: seq<R>, cond: R -> bool)
    requires forall i :: 0 <= i < |s| ==> !cond(s[i])
    ensures DeleteWhere(s, cond) == s
  {
    if s != [] {
      forall i | 0 <= i < |s[1..]| ensures !cond(s[1..][i]) {
        assert s[1..][i] == s[i + 1];
      }
      DeleteNothing(s[1..], cond);
      assert s == [s[0]] + s[1..];
    }
  }

  /** Under ascending keys, deleting by the key of row `j` removes exactly
      row `j`. */
  lemma {:induction false} DeleteOneRow<R(!new)>(s: seq<R>, id: R -> int, j: nat, top: int)
    requires KeysAscending(s, id, top)
    requires j < |s|
    ensures DeleteWhere(s, KeyIs(id, id(s[j]))) == s[..j] + s[j + 1..]
  {
    var k := id(s[j]);
    var cond := KeyIs(id, k);
    var tail := s[1..];
    if j == 0 {
      forall i | 0 <= i < |tail| ensures !cond(tail[i]) {
        assert tail[i] == s[i + 1];
      }
      DeleteNothing(tail, cond);
      assert cond(s[0]);
      assert DeleteWhere(s, cond) == DeleteWhere(tail, cond);
    } else {
      TailKeys(s, id, top);
      assert tail[j - 1] == s[j];
      DeleteOneRow(tail, id, j - 1, top);
      assert !cond(s[0]);
      assert DeleteWhere(s, cond) == [s[0]] + DeleteWhere(tail, cond);
      assert s[..j] == [s[0]] + tail[..j - 1];
      assert s[j + 1..] == tail[j..];
    }
  }
}
