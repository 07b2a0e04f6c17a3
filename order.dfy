/** Orderings used by the SQL queries of the history engine.

    Text columns compare with SQLite's default BINARY collation, which for
    UTF-8 text is the lexicographic order on code points (`StrLt`).  Every
    `ORDER BY` of the engine is modelled by sorting `Key` values: the columns
    the query orders by, followed by the row's position, which breaks the ties
    the SQL leaves unspecified.  Keys of distinct positions are distinct, so
    the order on them is strict and total and the sorted result is unique. */
module Order {

  /** Lexicographic order on strings, by code point. */
  predicate StrLt(a: string, b: string)
    decreases |a|
  {
    if |a| == 0 then |b| > 0
    else if |b| == 0 then false
    else a[0] < b[0] || (a[0] == b[0] && StrLt(a[1..], b[1..]))
  }

  predicate StrLe(a: string, b: string)
  {
    a == b || StrLt(a, b)
  }

  lemma StrLtIrreflexive(a: string)
    ensures !StrLt(a, a)
    decreases |a|
  {
    if |a| > 0 { StrLtIrreflexive(a[1..]); }
  }

  lemma StrLtTransitive(a: string, b: string, c: string)
    requires StrLt(a, b) && StrLt(b, c)
    ensures StrLt(a, c)
    decreases |a|
  {
    if |a| > 0 && |b| > 0 && |c| > 0 && a[0] == b[0] == c[0] {
      StrLtTransitive(a[1..], b[1..], c[1..]);
    }
  }

  lemma StrLtAsymmetric(a: string, b: string)
    requires StrLt(a, b)
    ensures !StrLt(b, a)
  {
    if StrLt(b, a) {
      StrLtTransitive(a, b, a);
      StrLtIrreflexive(a);
    }
  }

  lemma StrLtTotal(a: string, b: string)
    requires a != b
    ensures StrLt(a, b) || StrLt(b, a)
    decreases |a|
  {
    if |a| > 0 && |b| > 0 && a[0] == b[0] {
      assert a == [a[0]] + a[1..] && b == [b[0]] + b[1..];
      StrLtTotal(a[1..], b[1..]);
    }
  }

  /** The empty string comes first: it is where the engine's
      `operation_prev` buffer starts. */
  lemma EmptyStrLeast(a: string)
    ensures StrLe("", a)
  {
  }

  lemma StrLeAntisymmetric(a: string, b: string)
    requires StrLe(a, b) && StrLe(b, a)
    ensures a == b
  {
    if a != b { StrLtAsymmetric(a, b); }
  }

  lemma StrLeTransitive(a: string, b: string, c: string)
    requires StrLe(a, b) && StrLe(b, c)
    ensures StrLe(a, c)
  {
    if a != b && b != c { StrLtTransitive(a, b, c); }
  }

  /** The columns a query orders by (`major` text, then `minor` integer),
      followed by the row position `pos`. */
  datatype Key = Key(major: string, minor: int, pos: int)

  predicate KeyLt(x: Key, y: Key)
  {
    StrLt(x.major, y.major) ||
    (x.major == y.major && (x.minor < y.minor || (x.minor == y.minor && x.pos < y.pos)))
  }

  lemma KeyLtIrreflexive(x: Key)
    ensures !KeyLt(x, x)
  {
    StrLtIrreflexive(x.major);
  }

  lemma KeyLtTransitive(x: Key, y: Key, z: Key)
    requires KeyLt(x, y) && KeyLt(y, z)
    ensures KeyLt(x, z)
  {
    if StrLt(x.major, y.major) && StrLt(y.major, z.major) {
      StrLtTransitive(x.major, y.major, z.major);
    }
  }

  lemma KeyLtAsymmetric(x: Key, y: Key)
    requires KeyLt(x, y)
    ensures !KeyLt(y, x)
  {
    if KeyLt(y, x) {
      KeyLtTransitive(x, y, x);
      KeyLtIrreflexive(x);
    }
  }

  lemma KeyLtTotal(x: Key, y: Key)
    requires x != y
    ensures KeyLt(x, y) || KeyLt(y, x)
  {
    if x.major != y.major { StrLtTotal(x.major, y.major); }
  }

  /** The major columns of ordered keys are ordered. */
  lemma KeyLtMajor(x: Key, y: Key)
    requires KeyLt(x, y)
    ensures StrLe(x.major, y.major)
  {
  }

  predicate Sorted(ks: seq<Key>)
  {
    forall a, b :: 0 <= a < b < |ks| ==> KeyLt(ks[a], ks[b])
  }

  predicate Distinct(ks: seq<Key>)
  {
    forall a, b :: 0 <= a < b < |ks| ==> ks[a] != ks[b]
  }

  /** In a sorted sequence the positions follow the order of the keys. */
  lemma SortedPositions(ks: seq<Key>, a: int, b: int)
    requires Sorted(ks) && 0 <= a < |ks| && 0 <= b < |ks|
    requires KeyLt(ks[a], ks[b])
    ensures a < b
  {
    if a == b {
      KeyLtIrreflexive(ks[a]);
    } else if b < a {
      KeyLtAsymmetric(ks[b], ks[a]);
    }
  }

  function Insert(k: Key, ks: seq<Key>): (r: seq<Key>)
    ensures |r| == |ks| + 1
    ensures forall x :: x in r <==> x == k || x in ks
  {
    if ks == [] then [k]
    else if KeyLt(k, ks[0]) then [k] + ks
    else [ks[0]] + Insert(k, ks[1..])
  }

  lemma {:induction false} InsertSorted(k: Key, ks: seq<Key>)
    requires Sorted(ks) && k !in ks
    ensures Sorted(Insert(k, ks))
  {
    if ks == [] {
    } else if KeyLt(k, ks[0]) {
      var r := [k] + ks;
      forall a, b | 0 <= a < b < |r| ensures KeyLt(r[a], r[b]) {
        if a == 0 && b > 1 { KeyLtTransitive(k, ks[0], ks[b - 1]); }
      }
    } else {
      assert k != ks[0];
      KeyLtTotal(k, ks[0]);
      InsertSorted(k, ks[1..]);
      var t := Insert(k, ks[1..]);
      var r := [ks[0]] + t;
      forall a, b | 0 <= a < b < |r| ensures KeyLt(r[a], r[b]) {
        if a == 0 {
          assert r[b] in t;
          if r[b] != k {
            var c :| 0 <= c < |ks[1..]| && ks[1..][c] == r[b];
            assert ks[c + 1] == r[b];
          }
        }
      }
    }
  }

  /** Insertion sort.  On distinct keys the result is the unique sorted
      arrangement of the same keys. */
  function Sort(ks: seq<Key>): (r: seq<Key>)
    ensures |r| == |ks|
    ensures forall x :: x in r <==> x in ks
  {
    if ks == [] then [] else Insert(ks[0], Sort(ks[1..]))
  }

  lemma {:induction false} SortSorted(ks: seq<Key>)
    requires Distinct(ks)
    ensures Sorted(Sort(ks))
  {
    if ks != [] {
      assert Distinct(ks[1..]) by {
        forall a, b | 0 <= a < b < |ks[1..]| ensures ks[1..][a] != ks[1..][b] {
          assert ks[1..][a] == ks[a + 1] && ks[1..][b] == ks[b + 1];
        }
      }
      SortSorted(ks[1..]);
      assert ks[0] !in ks[1..] by {
        forall c | 0 <= c < |ks[1..]| ensures ks[1..][c] != ks[0] {
          assert ks[1..][c] == ks[c + 1];
        }
      }
      InsertSorted(ks[0], Sort(ks[1..]));
    }
  }

  /** Keep the keys whose major column is not excluded. */
  function KeepMajor(ks: seq<Key>, excluded: string -> bool): (r: seq<Key>)
    ensures |r| <= |ks|
  {
    if ks == [] then []
    else if excluded(ks[|ks| - 1].major) then KeepMajor(ks[..|ks| - 1], excluded)
    else KeepMajor(ks[..|ks| - 1], excluded) + [ks[|ks| - 1]]
  }

  /** The kept keys are exactly those whose major column is not excluded. */
  lemma {:induction false} KeepMajorMembers(ks: seq<Key>, excluded: string -> bool)
    ensures forall x :: x in KeepMajor(ks, excluded) <==> x in ks && !excluded(x.major)
  {
    if ks != [] {
      var init := ks[..|ks| - 1];
      KeepMajorMembers(init, excluded);
      assert ks == init + [ks[|ks| - 1]];
    }
  }

  lemma {:induction false} KeepMajorSorted(ks: seq<Key>, excluded: string -> bool)
    requires Sorted(ks)
    ensures Sorted(KeepMajor(ks, excluded))
  {
    if ks != [] {
      var init := ks[..|ks| - 1];
      assert Sorted(init);
      KeepMajorSorted(init, excluded);
      KeepMajorMembers(init, excluded);
      var r := KeepMajor(ks, excluded);
      if !excluded(ks[|ks| - 1].major) {
        forall a, b | 0 <= a < b < |r| ensures KeyLt(r[a], r[b]) {
          if b == |r| - 1 {
            assert r[a] in KeepMajor(init, excluded);
            var c :| 0 <= c < |init| && init[c] == r[a];
          }
        }
      }
    }
  }

  /** Number of keys with a given major column. */
  function CountMajor(ks: seq<Key>, m: string): (n: nat)
    ensures n <= |ks|
    ensures n == 0 <==> forall a :: 0 <= a < |ks| ==> ks[a].major != m
  {
    if ks == [] then 0
    else CountMajor(ks[..|ks| - 1], m) + (if ks[|ks| - 1].major == m then 1 else 0)
  }
}
