/**
 * Ordering of table rows by a composite key `(sort value, uri)`, as the store's
 * `ORDER BY <value> DESC, uri DESC` sees it, and the keyset predicate
 * `value < c.value OR (value = c.value AND uri < c.uri)` that resumes a listing after a
 * cursor. Text is compared by code point, the BINARY collation of SQLite on UTF-8 text.
 */
module Keyset {

  /** Lexicographic order on strings; a proper prefix comes first. */
  predicate StrLess(a: string, b: string)
    decreases |a|
  {
    if a == [] then b != []
    else if b == [] then false
    else a[0] < b[0] || (a[0] == b[0] && StrLess(a[1..], b[1..]))
  }

  lemma {:induction false} StrLessIrreflexive(a: string)
    ensures !StrLess(a, a)
  {
    if a != [] {
      StrLessIrreflexive(a[1..]);
    }
  }

  lemma {:induction false} StrLessTransitive(a: string, b: string, c: string)
    requires StrLess(a, b) && StrLess(b, c)
    ensures StrLess(a, c)
  {
    if a != [] && b != [] && c != [] && a[0] == b[0] && b[0] == c[0] {
      StrLessTransitive(a[1..], b[1..], c[1..]);
    }
  }

  lemma {:induction false} StrLessTotal(a: string, b: string)
    ensures a == b || StrLess(a, b) || StrLess(b, a)
  {
    if a != [] && b != [] && a[0] == b[0] {
      StrLessTotal(a[1..], b[1..]);
      if a[1..] == b[1..] {
        assert a == [a[0]] + a[1..] && b == [b[0]] + b[1..];
      }
    }
  }

  datatype Key = Key(at: int, uri: string)

  /** `a` sorts strictly before `b` in ascending order of (at, uri). */
  predicate KeyLess(a: Key, b: Key)
  {
    a.at < b.at || (a.at == b.at && StrLess(a.uri, b.uri))
  }

  lemma KeyLessIrreflexive(a: Key)
    ensures !KeyLess(a, a)
  {
    StrLessIrreflexive(a.uri);
  }

  lemma KeyLessTransitive(a: Key, b: Key, c: Key)
    requires KeyLess(a, b) && KeyLess(b, c)
    ensures KeyLess(a, c)
  {
    if a.at == b.at == c.at {
      StrLessTransitive(a.uri, b.uri, c.uri);
    }
  }

  lemma KeyLessAsymmetric(a: Key, b: Key)
    requires KeyLess(a, b)
    ensures !KeyLess(b, a)
  {
    if KeyLess(b, a) {
      KeyLessTransitive(a, b, a);
      KeyLessIrreflexive(a);
    }
  }

  /** Keys with different uris are always ordered one way or the other. */
  lemma KeyLessTotal(a: Key, b: Key)
    requires a.uri != b.uri
    ensures KeyLess(a, b) || KeyLess(b, a)
  {
    StrLessTotal(a.uri, b.uri);
  }

  /** A table reduced to what ordering needs: each row's uri and its sort value. */
  type Table = map<string, int>

  function KeyOf(t: Table, u: string): Key
    requires u in t
  {
    Key(t[u], u)
  }

  /** `s` lists rows of `t` in strictly descending key order. */
  ghost predicate Descending(t: Table, s: seq<string>)
  {
    && (forall i :: 0 <= i < |s| ==> s[i] in t)
    && (forall i, j :: 0 <= i < j < |s| ==> KeyLess(KeyOf(t, s[j]), KeyOf(t, s[i])))
  }

  /** A descending listing never repeats a row. */
  lemma DescendingDistinct(t: Table, s: seq<string>)
    requires Descending(t, s)
    ensures forall i, j :: 0 <= i < j < |s| ==> s[i] != s[j]
  {
    forall i, j | 0 <= i < j < |s| ensures s[i] != s[j] {
      KeyLessIrreflexive(KeyOf(t, s[i]));
    }
  }

  /** The row with the greatest key. */
  ghost function Greatest(t: Table): (u: string)
    requires t != map[]
    ensures u in t
    ensures forall v :: v in t && v != u ==> KeyLess(KeyOf(t, v), KeyOf(t, u))
    decreases t.Keys
  {
    var x :| x in t;
    var rest := t - {x};
    assert rest.Keys == t.Keys - {x};
    assert forall v :: v in t && v != x ==> v in rest;
    if rest == map[] then x
    else
      var y := Greatest(rest);
      assert forall v :: v in rest ==> KeyOf(rest, v) == KeyOf(t, v);
      if KeyLess(KeyOf(t, x), KeyOf(t, y)) then y
      else GreatestStep(t, x, y); x
  }

  lemma GreatestStep(t: Table, x: string, y: string)
    requires x in t && y in t && x != y
    requires !KeyLess(KeyOf(t, x), KeyOf(t, y))
    requires forall v :: v in t && v != x && v != y ==> KeyLess(KeyOf(t, v), KeyOf(t, y))
    ensures forall v :: v in t && v != x ==> KeyLess(KeyOf(t, v), KeyOf(t, x))
  {
    KeyLessTotal(KeyOf(t, x), KeyOf(t, y));
    forall v | v in t && v != x ensures KeyLess(KeyOf(t, v), KeyOf(t, x)) {
      if v != y {
        KeyLessTransitive(KeyOf(t, v), KeyOf(t, y), KeyOf(t, x));
      }
    }
  }

  /** Every row of the table, once, in descending key order: what
      `SELECT ... ORDER BY value DESC, uri DESC` returns. */
  ghost function Listing(t: Table): (s: seq<string>)
    ensures Descending(t, s)
    ensures forall u :: u in t <==> u in s
    decreases t.Keys
  {
    if t == map[] then []
    else
      var u := Greatest(t);
      var rest := t - {u};
      assert rest.Keys == t.Keys - {u};
      var s := [u] + Listing(rest);
      assert forall i :: 1 <= i < |s| ==> s[i] in rest;
      s
  }

  /** The rows of `s` whose key lies strictly below the cursor `c`, in the order of `s`. */
  function After(t: Table, s: seq<string>, c: Key): (r: seq<string>)
    requires forall i :: 0 <= i < |s| ==> s[i] in t
    ensures |r| <= |s|
    ensures forall i :: 0 <= i < |r| ==> r[i] in t && KeyLess(KeyOf(t, r[i]), c)
    ensures forall i :: 0 <= i < |s| && KeyLess(KeyOf(t, s[i]), c) ==> s[i] in r
  {
    if s == [] then []
    else (if KeyLess(KeyOf(t, s[0]), c) then [s[0]] else []) + After(t, s[1..], c)
  }

  lemma {:induction false} AfterAllBelow(t: Table, s: seq<string>, c: Key)
    requires forall i :: 0 <= i < |s| ==> s[i] in t && KeyLess(KeyOf(t, s[i]), c)
    ensures After(t, s, c) == s
  {
    if s != [] {
      AfterAllBelow(t, s[1..], c);
    }
  }

  /** In a descending listing the rows below any cursor form a suffix. */
  lemma {:induction false} AfterIsSuffix(t: Table, s: seq<string>, c: Key) returns (n: nat)
    requires Descending(t, s)
    ensures n <= |s| && After(t, s, c) == s[n..]
  {
    if s == [] {
      n := 0;
    } else if KeyLess(KeyOf(t, s[0]), c) {
      forall i | 0 <= i < |s| ensures KeyLess(KeyOf(t, s[i]), c) {
        if i > 0 {
          KeyLessTransitive(KeyOf(t, s[i]), KeyOf(t, s[0]), c);
        }
      }
      AfterAllBelow(t, s, c);
      n := 0;
    } else {
      var m := AfterIsSuffix(t, s[1..], c);
      n := m + 1;
    }
  }

  /** The rows below a cursor keep the descending order of the listing they come from. */
  lemma AfterDescending(t: Table, s: seq<string>, c: Key)
    requires Descending(t, s)
    ensures Descending(t, After(t, s, c))
  {
    var n := AfterIsSuffix(t, s, c);
    assert forall i, j :: 0 <= i < j < |s| - n ==> s[n..][i] == s[n + i] && s[n..][j] == s[n + j];
  }

  /** Resuming after the key of the i-th row of a descending listing yields exactly the
      rows that follow it: nothing skipped, nothing repeated. */
  lemma {:induction false} AfterKeyOf(t: Table, s: seq<string>, i: nat)
    requires Descending(t, s) && i < |s|
    ensures After(t, s, KeyOf(t, s[i])) == s[i + 1..]
  {
    var c := KeyOf(t, s[i]);
    if i == 0 {
      KeyLessIrreflexive(c);
      AfterAllBelow(t, s[1..], c);
    } else {
      KeyLessAsymmetric(c, KeyOf(t, s[0]));
      assert s[1..][i - 1] == s[i];
      AfterKeyOf(t, s[1..], i - 1);
      assert s[1..][i..] == s[i + 1..];
    }
  }

  /** The same, for the i-th row of the suffix of `s` that starts at `n`. */
  lemma AfterKeyOfInSuffix(t: Table, s: seq<string>, n: nat, i: nat)
    requires Descending(t, s) && n + i < |s|
    ensures s[n..][i] == s[n + i]
    ensures After(t, s, KeyOf(t, s[n + i])) == s[n..][i + 1..]
  {
    AfterKeyOf(t, s, n + i);
    assert s[n + i + 1..] == s[n..][i + 1..];
  }
}
