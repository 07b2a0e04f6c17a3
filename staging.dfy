/** How `dt_history_copy_and_paste_on_image` fills the staging table
    `memory.style_items` from the source image's history. */
module Staging {
  import opened Order
  import opened Tables

  /** The rows of `h` at the positions the keys name, in key order. */
  function RowsAt(h: seq<Row>, ks: seq<Key>): (r: seq<Row>)
    requires forall a :: 0 <= a < |ks| ==> 0 <= ks[a].pos < |h|
    ensures |r| == |ks|
    ensures forall a :: 0 <= a < |ks| ==> r[a] == h[ks[a].pos]
  {
    seq(|ks|, a requires 0 <= a < |ks| => h[ks[a].pos])
  }

  /** `... WHERE imgid = src AND num IN (ops)`, or every row when no list is given. */
  function SelectRows(h: seq<Row>, ops: seq<nat>): (r: seq<Row>)
    ensures forall x :: x in r <==> x in h && (ops == [] || x.num in ops)
    ensures ops == [] ==> r == h
  {
    if h == [] then []
    else
      var init := SelectRows(h[..|h| - 1], ops);
      assert h == h[..|h| - 1] + [h[|h| - 1]];
      if ops == [] || h[|h| - 1].num in ops then init + [h[|h| - 1]] else init
  }

  /** Selecting rows keeps stack positions distinct. */
  lemma {:induction false} SelectRowsDistinctNums(h: seq<Row>, ops: seq<nat>)
    requires DistinctNums(h)
    ensures DistinctNums(SelectRows(h, ops))
  {
    if h != [] {
      var init := h[..|h| - 1];
      assert DistinctNums(init);
      SelectRowsDistinctNums(init, ops);
      var r := SelectRows(h, ops);
      var ri := SelectRows(init, ops);
      if ops == [] || h[|h| - 1].num in ops {
        forall i, j | 0 <= i < j < |r| ensures r[i].num != r[j].num {
          if j == |r| - 1 {
            assert r[i] in ri;
            var c :| 0 <= c < |init| && init[c] == r[i];
          }
        }
      }
    }
  }

  /** Sort keys `("", num, position)` of the rows `MAX(num)` picks among the first `n` rows. */
  function LatestKeys(h: seq<Row>, n: nat): (r: seq<Key>)
    requires n <= |h|
    ensures forall k :: k in r <==> exists i :: 0 <= i < n && IsLatest(h, i) && k == Key("", h[i].num, i)
    ensures forall a, b :: 0 <= a < b < |r| ==> r[a].pos < r[b].pos
    ensures forall a :: 0 <= a < |r| ==> 0 <= r[a].pos < n && IsLatest(h, r[a].pos) && r[a] == Key("", h[r[a].pos].num, r[a].pos)
  {
    if n == 0 then []
    else if IsLatest(h, n - 1) then LatestKeys(h, n - 1) + [Key("", h[n - 1].num, n - 1)]
    else LatestKeys(h, n - 1)
  }

  /** `SELECT MAX(num) AS max_num, ... GROUP BY operation, multi_priority ORDER BY max_num`. */
  function LastPerInstance(h: seq<Row>): (r: seq<Row>)
  {
    var ks := Sort(LatestKeys(h, |h|));
    assert forall a :: 0 <= a < |ks| ==> ks[a] in LatestKeys(h, |h|);
    RowsAt(h, ks)
  }

  /** The facts about the sorted latest keys the selection lemmas share. */
  lemma LatestSorted(h: seq<Row>)
    ensures Sorted(Sort(LatestKeys(h, |h|)))
    ensures forall a :: 0 <= a < |Sort(LatestKeys(h, |h|))| ==>
      Sort(LatestKeys(h, |h|))[a] in LatestKeys(h, |h|)
  {
    var lk := LatestKeys(h, |h|);
    assert Distinct(lk);
    SortSorted(lk);
  }

  /** "Merge and copy all" stages only rows that `MAX(num)` picks for their
      (operation, multi_priority) ... */
  lemma LastPerInstanceLatest(h: seq<Row>, p: int)
    requires 0 <= p < |LastPerInstance(h)|
    ensures exists i :: IsLatest(h, i) && LastPerInstance(h)[p] == h[i]
  {
    LatestSorted(h);
    var ks := Sort(LatestKeys(h, |h|));
    assert ks[p] in LatestKeys(h, |h|);
  }

  /** ... stages one for every (operation, multi_priority) of the source ... */
  lemma LastPerInstanceCovers(h: seq<Row>, i: int)
    requires 0 <= i < |h|
    ensures exists p :: 0 <= p < |LastPerInstance(h)| && SameInstance(LastPerInstance(h)[p], h[i])
  {
    var lk := LatestKeys(h, |h|);
    var ks := Sort(lk);
    var r := LastPerInstance(h);
    LatestExists(h, i);
    var j :| IsLatest(h, j) && SameInstance(h[j], h[i]);
    var k := Key("", h[j].num, j);
    assert k in lk;
    assert k in ks;
    var p :| 0 <= p < |ks| && ks[p] == k;
    assert r[p] == h[j];
  }

  /** ... never two for the same one, and orders them by `num`. */
  lemma LastPerInstanceOrdered(h: seq<Row>, p: int, q: int)
    requires 0 <= p < q < |LastPerInstance(h)|
    ensures !SameInstance(LastPerInstance(h)[p], LastPerInstance(h)[q])
    ensures LastPerInstance(h)[p].num <= LastPerInstance(h)[q].num
  {
    LatestSorted(h);
    var ks := Sort(LatestKeys(h, |h|));
    var r := LastPerInstance(h);
    assert ks[p] in LatestKeys(h, |h|) && ks[q] in LatestKeys(h, |h|);
    assert KeyLt(ks[p], ks[q]);
    if SameInstance(r[p], r[q]) {
      LatestUnique(h, ks[p].pos, ks[q].pos);
      KeyLtIrreflexive(ks[p]);
    }
  }

  /** With distinct source stack positions, the staged rows have distinct `num`. */
  lemma LastPerInstanceDistinctNums(h: seq<Row>)
    requires DistinctNums(h)
    ensures DistinctNums(LastPerInstance(h))
  {
    LatestSorted(h);
    var ks := Sort(LatestKeys(h, |h|));
    var r := LastPerInstance(h);
    forall i, j | 0 <= i < j < |r| ensures r[i].num != r[j].num {
      assert ks[i] in LatestKeys(h, |h|) && ks[j] in LatestKeys(h, |h|);
      assert KeyLt(ks[i], ks[j]);
      if ks[i].pos == ks[j].pos {
        KeyLtIrreflexive(ks[i]);
      } else if ks[i].pos < ks[j].pos {
        assert h[ks[i].pos].num != h[ks[j].pos].num;
      } else {
        assert h[ks[j].pos].num != h[ks[i].pos].num;
      }
    }
  }

  /** What the staging table holds before any renumbering: "merge and copy
      all" (`merge` with no list) keeps the last row of every instance; any
      other call copies every row, or the listed ones. */
  function StagedRows(h: seq<Row>, merge: bool, ops: seq<nat>): seq<Row>
  {
    if merge && ops == [] then LastPerInstance(h) else SelectRows(h, ops)
  }

  lemma StagedRowsDistinctNums(h: seq<Row>, merge: bool, ops: seq<nat>)
    requires DistinctNums(h)
    ensures DistinctNums(StagedRows(h, merge, ops))
  {
    if merge && ops == [] { LastPerInstanceDistinctNums(h); } else { SelectRowsDistinctNums(h, ops); }
  }
}
