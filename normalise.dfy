/** The multi-instance clean-up of the staging table
    (`_dt_history_cleanup_multi_instance`): within every operation that may
    have several instances, the staged rows are renumbered 0, 1, 2, ... in
    the order (multi_priority, row position). */
module Normalise {
  import opened Order
  import opened Tables

  /** The capability lookup: true when the operation is flagged one-instance.
      An operation the catalog does not know counts as multi-instance. */
  type Catalog = string -> bool

  /** The sort key of staging row `i` for `ORDER BY operation, multi_priority`. */
  function OpKey(s: seq<Row>, i: int): Key
    requires 0 <= i < |s|
  {
    Key(s[i].operation, s[i].multiPriority, i)
  }

  function OpKeys(s: seq<Row>): (r: seq<Key>)
    ensures |r| == |s|
  {
    seq(|s|, i requires 0 <= i < |s| => OpKey(s, i))
  }

  /** `SELECT num, operation, multi_priority FROM memory.style_items ORDER BY operation, multi_priority`. */
  function ByOpMi(s: seq<Row>): seq<Key>
  {
    Sort(OpKeys(s))
  }

  /** The list the clean-up builds from that query, one-instance operations skipped. */
  function HItems(s: seq<Row>, oneInstance: Catalog): seq<Key>
  {
    KeepMajor(ByOpMi(s), oneInstance)
  }

  /** The staging rows of the same operation that come before row `i`. */
  function RankSet(s: seq<Row>, i: int): set<int>
    requires 0 <= i < |s|
  {
    set j | 0 <= j < |s| && s[j].operation == s[i].operation && KeyLt(OpKey(s, j), OpKey(s, i))
  }

  /** The instance number the clean-up gives row `i`. */
  function Rank(s: seq<Row>, i: int): nat
    requires 0 <= i < |s|
  {
    |RankSet(s, i)|
  }

  /** The staging table after the clean-up. */
  function Normalised(s: seq<Row>, oneInstance: Catalog): (r: seq<Row>)
    ensures |r| == |s|
  {
    seq(|s|, i requires 0 <= i < |s| =>
      if oneInstance(s[i].operation) then s[i] else s[i].(multiPriority := Rank(s, i)))
  }

  /** Every row is already numbered as the clean-up would number it. */
  predicate IsNormalised(s: seq<Row>, oneInstance: Catalog)
  {
    forall i :: 0 <= i < |s| && !oneInstance(s[i].operation) ==> s[i].multiPriority == Rank(s, i)
  }

  // ----- the ordered query -----

  lemma OpKeysDistinct(s: seq<Row>)
    ensures Distinct(OpKeys(s))
  {
  }

  /** Every key names a row of `s`. */
  predicate PosIn(h: seq<Key>, s: seq<Row>)
  {
    forall p :: 0 <= p < |h| ==> 0 <= h[p].pos < |s|
  }

  /** `h` is the ordered list of the multi-instance rows of `s`: sorted, and
      each key carries the row it was read from. */
  predicate ListOf(h: seq<Key>, s: seq<Row>, oneInstance: Catalog)
  {
    Sorted(h) &&
    (forall p :: 0 <= p < |h| ==> 0 <= h[p].pos < |s| && h[p] == OpKey(s, h[p].pos) && !oneInstance(h[p].major)) &&
    (forall i :: 0 <= i < |s| && !oneInstance(s[i].operation) ==> OpKey(s, i) in h)
  }

  lemma HItemsFacts(s: seq<Row>, oneInstance: Catalog)
    ensures ListOf(HItems(s, oneInstance), s, oneInstance)
  {
    var ks := OpKeys(s);
    OpKeysDistinct(s);
    SortSorted(ks);
    KeepMajorSorted(Sort(ks), oneInstance);
    KeepMajorMembers(Sort(ks), oneInstance);
    var h := HItems(s, oneInstance);
    forall p | 0 <= p < |h|
      ensures 0 <= h[p].pos < |s| && h[p] == OpKey(s, h[p].pos) && !oneInstance(h[p].major)
    {
      assert h[p] in Sort(ks);
      assert h[p] in ks;
      var i :| 0 <= i < |ks| && ks[i] == h[p];
    }
    forall i | 0 <= i < |s| && !oneInstance(s[i].operation) ensures OpKey(s, i) in h {
      assert ks[i] == OpKey(s, i);
      assert OpKey(s, i) in ks;
    }
  }

  lemma ListPositionsDistinct(h: seq<Key>, s: seq<Row>, oneInstance: Catalog, n: int)
    requires ListOf(h, s, oneInstance) && 0 <= n <= |h|
    ensures forall a, b :: 0 <= a < b < |h[..n]| ==> h[..n][a].pos != h[..n][b].pos
  {
    forall a, b | 0 <= a < b < n ensures h[a].pos != h[b].pos {
      KeyLtIrreflexive(h[a]);
    }
  }

  /** The positions of the keys of operation `o`. */
  function PosSet(ks: seq<Key>, o: string): (r: set<int>)
    ensures forall x :: x in r <==> exists q :: 0 <= q < |ks| && ks[q].major == o && ks[q].pos == x
  {
    if ks == [] then {}
    else
      var init := ks[..|ks| - 1];
      assert forall q :: 0 <= q < |init| ==> init[q] == ks[q];
      PosSet(init, o) + (if ks[|ks| - 1].major == o then {ks[|ks| - 1].pos} else {})
  }

  /** Keys with distinct positions: counting those of one operation counts their positions. */
  lemma {:induction false} CountPositions(ks: seq<Key>, o: string)
    requires forall a, b :: 0 <= a < b < |ks| ==> ks[a].pos != ks[b].pos
    ensures |PosSet(ks, o)| == CountMajor(ks, o)
  {
    if ks != [] {
      var init := ks[..|ks| - 1];
      var last := ks[|ks| - 1];
      assert forall q :: 0 <= q < |init| ==> init[q] == ks[q];
      CountPositions(init, o);
      assert last.pos !in PosSet(init, o);
    }
  }

  lemma ProperSubsetSmaller(a: set<int>, b: set<int>, x: int)
    requires a <= b && x in b && x !in a
    ensures |a| < |b|
  {
    var d := b - a;
    assert b == a + d && a * d == {};
    assert x in d;
    assert |d| >= 1 by { assert {x} <= d; }
  }

  /** In the ordered list, the rows of one operation form one block: a row
      whose predecessor has another operation is the first of its operation. */
  lemma BlockStart(h: seq<Key>, p: int)
    requires Sorted(h) && 0 < p < |h| && h[p - 1].major != h[p].major
    ensures CountMajor(h[..p], h[p].major) == 0
  {
    forall q | 0 <= q < p ensures h[..p][q].major != h[p].major {
      if q < p - 1 && h[q].major == h[p].major {
        KeyLtMajor(h[q], h[p - 1]);
        KeyLtMajor(h[p - 1], h[p]);
        StrLeAntisymmetric(h[q].major, h[p - 1].major);
      }
    }
  }

  /** The position of a row within its operation's block of the ordered list
      is its rank: the loop's counter `c_mi` computes `Rank`. */
  lemma ListRank(h: seq<Key>, s: seq<Row>, oneInstance: Catalog, p: int)
    requires ListOf(h, s, oneInstance) && 0 <= p < |h|
    ensures CountMajor(h[..p], h[p].major) == Rank(s, h[p].pos)
  {
    var o := h[p].major;
    var i := h[p].pos;
    var pre := h[..p];
    ListPositionsDistinct(h, s, oneInstance, p);
    CountPositions(pre, o);
    var b := PosSet(pre, o);
    var a := RankSet(s, i);
    forall j | j in a ensures j in b {
      assert OpKey(s, j) in h;
      var q :| 0 <= q < |h| && h[q] == OpKey(s, j);
      SortedPositions(h, q, p);
      assert pre[q] == h[q];
    }
    forall j | j in b ensures j in a {
      var q :| 0 <= q < |pre| && pre[q].major == o && pre[q].pos == j;
      assert h[q] == pre[q];
      assert KeyLt(h[q], h[p]);
    }
    assert a == b;
  }

  // ----- counting the rows of one operation -----

  function OpSet(s: seq<Row>, o: string): set<int>
  {
    set j | 0 <= j < |s| && s[j].operation == o
  }

  lemma {:induction false} OpSetSize(s: seq<Row>, o: string)
    ensures |OpSet(s, o)| == CountOp(s, o)
  {
    if s != [] {
      var init := s[..|s| - 1];
      OpSetSize(init, o);
      if s[|s| - 1].operation == o {
        assert OpSet(s, o) == OpSet(init, o) + {|s| - 1};
      } else {
        assert OpSet(s, o) == OpSet(init, o);
      }
    }
  }

  /** The ordered list holds as many rows of a multi-instance operation as the table. */
  lemma ListCount(h: seq<Key>, s: seq<Row>, oneInstance: Catalog, o: string)
    requires ListOf(h, s, oneInstance) && !oneInstance(o)
    ensures CountMajor(h, o) == CountOp(s, o)
  {
    ListPositionsDistinct(h, s, oneInstance, |h|);
    assert h[..|h|] == h;
    CountPositions(h, o);
    var b := PosSet(h, o);
    forall j | j in OpSet(s, o) ensures j in b {
      assert OpKey(s, j) in h;
      var q :| 0 <= q < |h| && h[q] == OpKey(s, j);
    }
    assert b == OpSet(s, o);
    OpSetSize(s, o);
  }

  /** A list with more than `n` keys of an operation has an `n`-th one (from 0). */
  lemma {:induction false} NthOfMajor(ks: seq<Key>, o: string, n: nat)
    requires n < CountMajor(ks, o)
    ensures exists p :: 0 <= p < |ks| && ks[p].major == o && CountMajor(ks[..p], o) == n
  {
    var init := ks[..|ks| - 1];
    if n < CountMajor(init, o) {
      NthOfMajor(init, o, n);
      var p :| 0 <= p < |init| && init[p].major == o && CountMajor(init[..p], o) == n;
      assert init[..p] == ks[..p];
    } else {
      var p := |ks| - 1;
      assert ks[..p] == init;
      assert ks[p].major == o && CountMajor(ks[..p], o) == n;
    }
  }

  // ----- what the renumbering promises -----

  /** Rows of one operation in (multi_priority, position) order get increasing numbers. */
  lemma RankMonotone(s: seq<Row>, i: int, j: int)
    requires 0 <= i < |s| && 0 <= j < |s| && s[i].operation == s[j].operation
    requires KeyLt(OpKey(s, i), OpKey(s, j))
    ensures Rank(s, i) < Rank(s, j)
  {
    forall k | k in RankSet(s, i) ensures k in RankSet(s, j) {
      KeyLtTransitive(OpKey(s, k), OpKey(s, i), OpKey(s, j));
    }
    KeyLtIrreflexive(OpKey(s, i));
    ProperSubsetSmaller(RankSet(s, i), RankSet(s, j), i);
  }

  lemma RankBelowCount(s: seq<Row>, i: int)
    requires 0 <= i < |s|
    ensures Rank(s, i) < CountOp(s, s[i].operation)
  {
    KeyLtIrreflexive(OpKey(s, i));
    ProperSubsetSmaller(RankSet(s, i), OpSet(s, s[i].operation), i);
    OpSetSize(s, s[i].operation);
  }

  /** After the clean-up, the rows of a multi-instance operation carry exactly
      the numbers 0 .. k-1, where k is that operation's number of rows. */
  lemma NormalisedRange(s: seq<Row>, oneInstance: Catalog, o: string, n: int)
    requires !oneInstance(o)
    ensures (exists i :: 0 <= i < |s| && s[i].operation == o && Normalised(s, oneInstance)[i].multiPriority == n)
            <==> 0 <= n < CountOp(s, o)
  {
    var r := Normalised(s, oneInstance);
    if 0 <= n < CountOp(s, o) {
      var h := HItems(s, oneInstance);
      HItemsFacts(s, oneInstance);
      ListCount(h, s, oneInstance, o);
      NthOfMajor(h, o, n);
      var p :| 0 <= p < |h| && h[p].major == o && CountMajor(h[..p], o) == n;
      ListRank(h, s, oneInstance, p);
      var i := h[p].pos;
      assert s[i].operation == o && r[i].multiPriority == n;
    }
    forall i | 0 <= i < |s| && s[i].operation == o ensures 0 <= r[i].multiPriority < CountOp(s, o) {
      RankBelowCount(s, i);
    }
  }

  /** No two rows of a multi-instance operation share a number ... */
  lemma NormalisedDistinct(s: seq<Row>, oneInstance: Catalog, i: int, j: int)
    requires 0 <= i < |s| && 0 <= j < |s| && i != j
    requires s[i].operation == s[j].operation && !oneInstance(s[i].operation)
    ensures Normalised(s, oneInstance)[i].multiPriority != Normalised(s, oneInstance)[j].multiPriority
  {
    KeyLtTotal(OpKey(s, i), OpKey(s, j));
    if KeyLt(OpKey(s, i), OpKey(s, j)) { RankMonotone(s, i, j); } else { RankMonotone(s, j, i); }
  }

  /** ... the numbers follow the old multi_priority ... */
  lemma NormalisedOrder(s: seq<Row>, oneInstance: Catalog, i: int, j: int)
    requires 0 <= i < |s| && 0 <= j < |s|
    requires s[i].operation == s[j].operation && !oneInstance(s[i].operation)
    requires s[i].multiPriority < s[j].multiPriority
    ensures Normalised(s, oneInstance)[i].multiPriority < Normalised(s, oneInstance)[j].multiPriority
  {
    RankMonotone(s, i, j);
  }

  /** ... and nothing but the multi_priority of multi-instance rows changes. */
  lemma NormalisedKeeps(s: seq<Row>, oneInstance: Catalog, i: int)
    requires 0 <= i < |s|
    ensures SameButPriority(Normalised(s, oneInstance)[i], s[i])
    ensures oneInstance(s[i].operation) ==> Normalised(s, oneInstance)[i] == s[i]
    ensures !oneInstance(s[i].operation) ==> Normalised(s, oneInstance)[i].multiPriority >= 0
  {
  }

  /** The clean-up of a cleaned-up table changes nothing. */
  lemma NormalisedIdempotent(s: seq<Row>, oneInstance: Catalog)
    ensures IsNormalised(Normalised(s, oneInstance), oneInstance)
    ensures Normalised(Normalised(s, oneInstance), oneInstance) == Normalised(s, oneInstance)
  {
    var r := Normalised(s, oneInstance);
    forall i | 0 <= i < |s| && !oneInstance(s[i].operation) ensures r[i].multiPriority == Rank(r, i) {
      forall j | 0 <= j < |s| && s[j].operation == s[i].operation
        ensures KeyLt(OpKey(r, j), OpKey(r, i)) <==> KeyLt(OpKey(s, j), OpKey(s, i))
      {
        if j == i {
          KeyLtIrreflexive(OpKey(r, i));
          KeyLtIrreflexive(OpKey(s, i));
        } else {
          KeyLtTotal(OpKey(s, j), OpKey(s, i));
          if KeyLt(OpKey(s, j), OpKey(s, i)) {
            RankMonotone(s, j, i);
          } else {
            RankMonotone(s, i, j);
            KeyLtAsymmetric(OpKey(s, i), OpKey(s, j));
          }
        }
      }
      assert RankSet(r, i) == RankSet(s, i);
    }
    assert Normalised(r, oneInstance) == r;
  }

  // ----- the UPDATE ... SET multi_priority = CASE num WHEN .. THEN .. END -----

  /** One `WHEN num THEN mi` arm. */
  datatype Case = Case(num: int, mi: int)

  /** The arm SQL takes for a row with this `num`: the first that names it. */
  function FirstCase(cases: seq<Case>, n: int): (r: Option<int>)
    ensures r.None? <==> forall c :: c in cases ==> c.num != n
    ensures r.Some? ==> Case(n, r.value) in cases
    ensures r.Some? ==> exists a :: (0 <= a < |cases| && cases[a] == Case(n, r.value) &&
      forall b :: 0 <= b < a ==> cases[b].num != n)
  {
    if cases == [] then None
    else if cases[0].num == n then Some(cases[0].mi)
    else FirstCase(cases[1..], n)
  }

  /** `UPDATE memory.style_items SET multi_priority = CASE num ... ELSE multi_priority END`. */
  function UpdateCase(s: seq<Row>, cases: seq<Case>): (r: seq<Row>)
    ensures |r| == |s|
    ensures forall i :: 0 <= i < |s| ==> SameButPriority(r[i], s[i])
  {
    seq(|s|, i requires 0 <= i < |s| =>
      match FirstCase(cases, s[i].num)
      case Some(v) => s[i].(multiPriority := v)
      case None => s[i])
  }

  /** The arms the clean-up writes (one per changed row, each naming that
      row's `num` and rank) perform the renumbering, provided staging rows
      have distinct `num`; otherwise an arm may also hit another row. */
  lemma UpdateCaseNormalises(s: seq<Row>, oneInstance: Catalog, cases: seq<Case>)
    requires DistinctNums(s)
    requires forall c :: c in cases ==>
      exists i :: 0 <= i < |s| && !oneInstance(s[i].operation) && c == Case(s[i].num, Rank(s, i))
    requires forall i :: 0 <= i < |s| && !oneInstance(s[i].operation) && s[i].multiPriority != Rank(s, i) ==>
      exists c :: c in cases && c.num == s[i].num
    ensures UpdateCase(s, cases) == Normalised(s, oneInstance)
  {
    var r := UpdateCase(s, cases);
    forall i | 0 <= i < |s| ensures r[i] == Normalised(s, oneInstance)[i] {
      match FirstCase(cases, s[i].num)
      case Some(v) =>
        var j :| 0 <= j < |s| && !oneInstance(s[j].operation) && Case(s[i].num, v) == Case(s[j].num, Rank(s, j));
        assert j == i;
      case None =>
    }
  }

  /** The arms the clean-up writes, in the order of the ordered list `h`:
      one `WHEN num THEN rank` for every row whose number is not its rank. */
  function ArmsOf(s: seq<Row>, oneInstance: Catalog, h: seq<Key>, n: nat): (r: seq<Case>)
    requires PosIn(h, s) && n <= |h|
    ensures |r| <= n
  {
    if n == 0 then []
    else
      var i := h[n - 1].pos;
      ArmsOf(s, oneInstance, h, n - 1) + (if s[i].multiPriority != Rank(s, i) then [Case(s[i].num, Rank(s, i))] else [])
  }

  /** An arm is written exactly for each of the first `n` listed rows whose
      number is not its rank. */
  lemma {:induction false} ArmsOfMembers(s: seq<Row>, oneInstance: Catalog, h: seq<Key>, n: nat)
    requires PosIn(h, s) && n <= |h|
    ensures forall c :: c in ArmsOf(s, oneInstance, h, n) <==>
      exists p :: 0 <= p < n && s[h[p].pos].multiPriority != Rank(s, h[p].pos) &&
        c == Case(s[h[p].pos].num, Rank(s, h[p].pos))
  {
    if n > 0 { ArmsOfMembers(s, oneInstance, h, n - 1); }
  }

  function Arms(s: seq<Row>, oneInstance: Catalog): seq<Case>
  {
    HItemsFacts(s, oneInstance);
    ArmsOf(s, oneInstance, HItems(s, oneInstance), |HItems(s, oneInstance)|)
  }

  /** The staging table after `_dt_history_cleanup_multi_instance`; with no arm
      (`nb_change == 0`) nothing is written, which `UpdateCase(s, [])` also leaves. */
  function CleanedUp(s: seq<Row>, oneInstance: Catalog): seq<Row>
  {
    UpdateCase(s, Arms(s, oneInstance))
  }

  /** Each arm names a multi-instance row and its rank; each multi-instance
      row whose number is not its rank has an arm. */
  lemma ArmsFacts(s: seq<Row>, oneInstance: Catalog)
    ensures forall c :: c in Arms(s, oneInstance) ==>
      exists i :: 0 <= i < |s| && !oneInstance(s[i].operation) && s[i].multiPriority != Rank(s, i) &&
        c == Case(s[i].num, Rank(s, i))
    ensures forall i :: 0 <= i < |s| && !oneInstance(s[i].operation) && s[i].multiPriority != Rank(s, i) ==>
      Case(s[i].num, Rank(s, i)) in Arms(s, oneInstance)
  {
    var h := HItems(s, oneInstance);
    HItemsFacts(s, oneInstance);
    ArmsOfMembers(s, oneInstance, h, |h|);
    forall i | 0 <= i < |s| && !oneInstance(s[i].operation) && s[i].multiPriority != Rank(s, i)
      ensures Case(s[i].num, Rank(s, i)) in Arms(s, oneInstance)
    {
      assert OpKey(s, i) in h;
      var p :| 0 <= p < |h| && h[p] == OpKey(s, i);
      assert h[p].pos == i;
    }
  }

  /** With distinct stack positions in staging, the clean-up performs the renumbering. */
  lemma CleanedUpNormalises(s: seq<Row>, oneInstance: Catalog)
    requires DistinctNums(s)
    ensures CleanedUp(s, oneInstance) == Normalised(s, oneInstance)
  {
    ArmsFacts(s, oneInstance);
    UpdateCaseNormalises(s, oneInstance, Arms(s, oneInstance));
  }

  /** `nb_change == 0` exactly when every row already carries its rank ... */
  lemma ArmsNone(s: seq<Row>, oneInstance: Catalog)
    ensures Arms(s, oneInstance) == [] <==> IsNormalised(s, oneInstance)
  {
    ArmsFacts(s, oneInstance);
    if !IsNormalised(s, oneInstance) {
      var i :| 0 <= i < |s| && !oneInstance(s[i].operation) && s[i].multiPriority != Rank(s, i);
      assert Case(s[i].num, Rank(s, i)) in Arms(s, oneInstance);
    } else {
      var h := HItems(s, oneInstance);
      HItemsFacts(s, oneInstance);
      ArmsOfNone(s, oneInstance, h, |h|);
    }
  }

  lemma {:induction false} ArmsOfNone(s: seq<Row>, oneInstance: Catalog, h: seq<Key>, n: nat)
    requires ListOf(h, s, oneInstance) && n <= |h| && IsNormalised(s, oneInstance)
    ensures ArmsOf(s, oneInstance, h, n) == []
  {
    if n > 0 { ArmsOfNone(s, oneInstance, h, n - 1); }
  }

  /** ... and then the table is left untouched. */
  lemma CleanedUpIdempotent(s: seq<Row>, oneInstance: Catalog)
    requires IsNormalised(s, oneInstance)
    ensures CleanedUp(s, oneInstance) == s
  {
    ArmsNone(s, oneInstance);
    assert UpdateCase(s, []) == s;
  }
}
