/** The few JavaScript value semantics that the server handlers and the client
    layout code rely on: optional (absent or null) values, truthiness of the
    `x || fallback` idiom, `String.prototype.trim` and a prefix test. */
module Js {

  /** A JSON field that may be absent or null (None) or carry a value. */
  datatype Option<T> = None | Some(value: T)

  /** JavaScript truthiness of a text field: absent, null and "" are falsy. */
  predicate TruthyText(v: Option<string>) {
    v.Some? && v.value != ""
  }

  /** JavaScript truthiness of a numeric field: absent, null and 0 are falsy. */
  predicate TruthyNumber(v: Option<int>) {
    v.Some? && v.value != 0
  }

  /** `v || null` on a text field. */
  function TextOrNull(v: Option<string>): (r: Option<string>)
    ensures r.Some? <==> TruthyText(v)
    ensures r.Some? ==> r == v
  {
    if TruthyText(v) then v else None
  }

  /** `v || null` on a numeric field. */
  function NumberOrNull(v: Option<int>): (r: Option<int>)
    ensures r.Some? <==> TruthyNumber(v)
    ensures r.Some? ==> r == v
  {
    if TruthyNumber(v) then v else None
  }

  /** `v || ''` on a text field. */
  function TextOrEmpty(v: Option<string>): (r: string)
    ensures r == "" <==> !TruthyText(v)
    ensures r != "" ==> v == Some(r)
  {
    if TruthyText(v) then v.value else ""
  }

  /** The characters `String.prototype.trim` removes: the WhiteSpace and
      LineTerminator code points of ECMAScript (section 12.2 and 12.3 of
      ECMA-262): tab, vertical tab, form feed, space, no-break space, the
      byte order mark, the Space_Separator category, line feed, carriage
      return, line separator and paragraph separator. */
  predicate IsSpace(c: char) {
    || c == '\t' || c == '\n' || c == '\U{000B}' || c == '\U{000C}' || c == '\r'
    || c == ' ' || c == '\U{00A0}' || c == '\U{1680}'
    || ('\U{2000}' <= c <= '\U{200A}')
    || c == '\U{2028}' || c == '\U{2029}' || c == '\U{202F}' || c == '\U{205F}'
    || c == '\U{3000}' || c == '\U{FEFF}'
  }

  /** `s` with its leading white space removed: a suffix of `s` that starts
      with a non-space, everything cut off being white space. */
  function TrimStart(s: string): (r: string)
    ensures |r| <= |s| && r == s[|s| - |r|..]
    ensures r == [] || !IsSpace(r[0])
  {
    if s != [] && IsSpace(s[0]) then TrimStart(s[1..]) else s
  }

  /** Everything TrimStart cuts off is white space. */
  lemma {:induction false} TrimStartCutsSpace(s: string)
    ensures forall i :: 0 <= i < |s| - |TrimStart(s)| ==> IsSpace(s[i])
  {
    if s != [] && IsSpace(s[0]) {
      TrimStartCutsSpace(s[1..]);
      assert forall i :: 0 < i < |s| ==> s[i] == s[1..][i - 1];
    }
  }

  /** `s` with its trailing white space removed: a prefix of `s` that ends
      with a non-space, everything cut off being white space. */
  function TrimEnd(s: string): (r: string)
    ensures |r| <= |s| && r == s[..|r|]
    ensures r == [] || !IsSpace(r[|r| - 1])
  {
    if s != [] && IsSpace(s[|s| - 1]) then TrimEnd(s[..|s| - 1]) else s
  }

  /** Everything TrimEnd cuts off is white space. */
  lemma {:induction false} TrimEndCutsSpace(s: string)
    ensures forall i :: |TrimEnd(s)| <= i < |s| ==> IsSpace(s[i])
  {
    if s != [] && IsSpace(s[|s| - 1]) {
      TrimEndCutsSpace(s[..|s| - 1]);
    }
  }

  /** `String.prototype.trim`. */
  function Trim(s: string): string {
    TrimEnd(TrimStart(s))
  }

  /** Where the slice Trim keeps starts. */
  function TrimFrom(s: string): nat {
    |s| - |TrimStart(s)|
  }

  /** Where the slice Trim keeps ends. */
  function TrimTo(s: string): nat {
    TrimFrom(s) + |Trim(s)|
  }

  /** Trim gives a contiguous slice of its input, and only white space was
      removed on either side. */
  lemma TrimIsSlice(s: string)
    ensures TrimFrom(s) <= TrimTo(s) <= |s|
    ensures Trim(s) == s[TrimFrom(s)..TrimTo(s)]
    ensures forall i :: 0 <= i < TrimFrom(s) ==> IsSpace(s[i])
    ensures forall i :: TrimTo(s) <= i < |s| ==> IsSpace(s[i])
  {
    var t := TrimStart(s);
    var a := TrimFrom(s);
    TrimStartCutsSpace(s);
    TrimEndCutsSpace(t);
    assert forall i :: TrimTo(s) <= i < |s| ==> s[i] == t[i - a];
  }

  /** What Trim keeps neither starts nor ends with white space. */
  lemma TrimEnds(s: string)
    ensures Trim(s) == [] || (!IsSpace(Trim(s)[0]) && !IsSpace(Trim(s)[|Trim(s)| - 1]))
  {
    var t := TrimStart(s);
    if Trim(s) != [] {
      assert Trim(s)[0] == t[0];
    }
  }

  /** Trimming twice is trimming once. */
  lemma TrimIdempotent(s: string)
    ensures Trim(Trim(s)) == Trim(s)
  {
    var t := Trim(s);
    TrimEnds(s);
    if t != [] {
      assert TrimStart(t) == t;
      assert TrimEnd(t) == t;
    }
  }

  /** A string that is only white space trims to "", and conversely. */
  lemma TrimEmptyIffAllSpace(s: string)
    ensures Trim(s) == "" <==> forall i :: 0 <= i < |s| ==> IsSpace(s[i])
  {
    TrimIsSlice(s);
    TrimEnds(s);
    if Trim(s) != "" {
      assert Trim(s)[0] == s[TrimFrom(s)];
    }
  }

  /** TrimStart drops exactly a white space prefix. */
  lemma {:induction false} TrimStartPadded(p: string, x: string)
    requires forall i :: 0 <= i < |p| ==> IsSpace(p[i])
    requires x == [] || !IsSpace(x[0])
    ensures TrimStart(p + x) == x
  {
    if p != [] {
      assert (p + x)[0] == p[0];
      assert (p + x)[1..] == p[1..] + x;
      TrimStartPadded(p[1..], x);
    } else {
      assert p + x == x;
    }
  }

  /** TrimEnd drops exactly a white space suffix. */
  lemma {:induction false} TrimEndPadded(x: string, q: string)
    requires forall i :: 0 <= i < |q| ==> IsSpace(q[i])
    requires x == [] || !IsSpace(x[|x| - 1])
    ensures TrimEnd(x + q) == x
  {
    if q != [] {
      var n := |q| - 1;
      assert (x + q)[|x + q| - 1] == q[n];
      assert (x + q)[..|x + q| - 1] == x + q[..n];
      TrimEndPadded(x, q[..n]);
    } else {
      assert x + q == x;
    }
  }

  /** Trim removes exactly the white space padding around a text that
      neither starts nor ends with white space. */
  lemma TrimPadded(p: string, a: string, q: string)
    requires forall i :: 0 <= i < |p| ==> IsSpace(p[i])
    requires forall i :: 0 <= i < |q| ==> IsSpace(q[i])
    requires a != [] && !IsSpace(a[0]) && !IsSpace(a[|a| - 1])
    ensures Trim(p + a + q) == a
  {
    assert p + a + q == p + (a + q);
    TrimStartPadded(p, a + q);
    TrimEndPadded(a, q);
  }

  /** A message padded with spaces is stored without them. */
  lemma TrimExample()
    ensures Trim("  hello  ") == "hello"
  {
    assert "  " + "hello" + "  " == "  hello  ";
    TrimPadded("  ", "hello", "  ");
  }

  /** The text `s` begins with `prefix`, as SQL `LIKE 'prefix%'` tests it for
      a prefix without wildcard or ASCII letters. */
  predicate StartsWith(s: string, prefix: string) {
    |prefix| <= |s| && s[..|prefix|] == prefix
  }
}
