/** The writer of `dt_history_copy_and_paste_on_image`: what the destination
    history becomes, as a function of the tables before the call. */
module Paste {
  import opened Tables
  import opened Staging
  import opened Normalise
  import opened Merge

  /** `DELETE FROM main.history WHERE ... num >= history_end`; a NULL
      `history_end` (or a missing image row) compares as unknown and deletes nothing. */
  function Trim(h: seq<Row>, end: Option<int>): seq<Row>
  {
    if h == [] then []
    else
      var init := h[..|h| - 1];
      var last := h[|h| - 1];
      if end.None? || last.num < end.value then Trim(init, end) + [last] else Trim(init, end)
  }

  /** Trimming keeps exactly the rows below `history_end`, and all of them
      when it is NULL. */
  lemma {:induction false} TrimKeeps(h: seq<Row>, end: Option<int>)
    ensures forall x :: x in Trim(h, end) <==> x in h && (end.None? || x.num < end.value)
  {
    if h != [] {
      var init := h[..|h| - 1];
      TrimKeeps(init, end);
      assert h == init + [h[|h| - 1]];
    }
  }

  /** A NULL `history_end` trims nothing. */
  lemma {:induction false} TrimNone(h: seq<Row>)
    ensures Trim(h, None) == h
  {
    if h != [] {
      TrimNone(h[..|h| - 1]);
      assert h == h[..|h| - 1] + [h[|h| - 1]];
    }
  }

  /** `INSERT INTO main.history ... SELECT ?1, ?2 + rowid - 1, ... FROM memory.style_items`:
      staging row `k` has rowid `k + 1`. */
  function Written(h: seq<Row>, s: seq<Row>, offs: int): (r: seq<Row>)
    ensures |r| == |h| + |s|
  {
    h + seq(|s|, k requires 0 <= k < |s| => s[k].(num := offs + k))
  }

  /** `SELECT MAX(num) + 1 FROM main.history WHERE imgid = dest`: NULL on an empty history. */
  function HistoryEnd(h: seq<Row>): (r: Option<int>)
    ensures r.None? <==> h == []
    ensures r.Some? ==> forall i :: 0 <= i < |h| ==> h[i].num < r.value
  {
    if h == [] then None else Some(MaxNum(h) + 1)
  }

  /** What a paste leaves: the destination history and the staging table. */
  datatype Pasted = Pasted(history: seq<Row>, staging: seq<Row>)

  /** Merge mode: trim, stage and clean up, then the later stages. */
  function PasteMerge(dest: seq<Row>, src: seq<Row>, end: Option<int>, ops: seq<nat>, oneInstance: Catalog): Pasted
  {
    Stages(Trim(dest, end), CleanedUp(StagedRows(src, true, ops), oneInstance), oneInstance)
  }

  /** The later stages of a merge onto the trimmed history `base` from the
      cleaned-up staging table `s1`: shift, reconcile, and append after the
      highest remaining `num`. */
  function Stages(base: seq<Row>, s1: seq<Row>, oneInstance: Catalog): Pasted
  {
    var s2 := MergedStaging(base, s1, oneInstance);
    Pasted(Written(Merged(base, s1, oneInstance), s2, MaxNum(base) + 1), s2)
  }

  /** Replace mode: start from an empty history and append at 0. */
  function PasteReplace(src: seq<Row>, ops: seq<nat>): Pasted
  {
    var s := StagedRows(src, false, ops);
    Pasted(Written([], s, 0), s)
  }

  /** The paste of the history `src` onto the history `dest` whose `history_end` is `end`. */
  function PasteOnto(dest: seq<Row>, src: seq<Row>, end: Option<int>, merge: bool, ops: seq<nat>, oneInstance: Catalog): Pasted
  {
    if merge then PasteMerge(dest, src, end, ops, oneInstance) else PasteReplace(src, ops)
  }

  // ----- what a paste promises -----

  lemma MaxNumConsecutive(h: seq<Row>)
    requires Consecutive(h) && h != []
    ensures MaxNum(h) == |h| - 1
  {
    assert h[|h| - 1].num == |h| - 1;
  }

  /** The `history_end` of a history numbered 0, 1, 2, ... is its length. */
  lemma ConsecutiveEnd(h: seq<Row>)
    requires Consecutive(h)
    ensures HistoryEnd(h) == if h == [] then None else Some(|h|)
  {
    if h != [] { MaxNumConsecutive(h); }
  }

  /** Trimming a history numbered 0, 1, 2, ... at `history_end = e` keeps
      its first `e` rows (all of them when `e` is larger, none when it is negative). */
  lemma {:induction false} TrimConsecutive(h: seq<Row>, e: int)
    requires Consecutive(h)
    ensures Trim(h, Some(e)) == h[..if e < 0 then 0 else if e > |h| then |h| else e]
  {
    if h != [] {
      var n := |h|;
      var init := h[..n - 1];
      assert Consecutive(init);
      TrimConsecutive(init, e);
      assert h == init + [h[n - 1]];
      if e > n - 1 {
        assert init[..n - 1] == init;
      }
    }
  }

  lemma WrittenKeeps(m: seq<Row>, s: seq<Row>, offs: int, i: int)
    requires 0 <= i < |m|
    ensures Written(m, s, offs)[i] == m[i]
  {
  }

  lemma WrittenAt(m: seq<Row>, s: seq<Row>, offs: int, k: int)
    requires 0 <= k < |s|
    ensures Written(m, s, offs)[|m| + k] == s[k].(num := offs + k)
  {
  }

  lemma WrittenConsecutive(m: seq<Row>, s: seq<Row>)
    requires Consecutive(m)
    ensures Consecutive(Written(m, s, |m|))
  {
  }

  /** The reconciled history of a history numbered 0, 1, 2, ... is numbered the same. */
  lemma MergedConsecutive(base: seq<Row>, s: seq<Row>, oneInstance: Catalog)
    requires Consecutive(base)
    ensures Consecutive(Merged(base, s, oneInstance))
  {
    MergedKeepsFields(base, s, oneInstance);
  }

  /** The later stages keep a history numbered 0, 1, 2, ... numbered so. */
  lemma StagesConsecutive(base: seq<Row>, s1: seq<Row>, oneInstance: Catalog)
    requires Consecutive(base)
    ensures Consecutive(Stages(base, s1, oneInstance).history)
  {
    if base != [] { MaxNumConsecutive(base); }
    MergedConsecutive(base, s1, oneInstance);
    WrittenConsecutive(Merged(base, s1, oneInstance), MergedStaging(base, s1, oneInstance));
  }

  lemma MergeModeConsecutive(dest: seq<Row>, src: seq<Row>, end: Option<int>, ops: seq<nat>, oneInstance: Catalog)
    requires Consecutive(dest)
    ensures Consecutive(PasteMerge(dest, src, end, ops, oneInstance).history)
  {
    var base := Trim(dest, end);
    if end.Some? { TrimConsecutive(dest, end.value); } else { TrimNone(dest); }
    StagesConsecutive(base, CleanedUp(StagedRows(src, true, ops), oneInstance), oneInstance);
  }

  /** On a history numbered 0, 1, 2, ..., a paste leaves a history numbered
      0, 1, 2, ... whose `history_end` (`MAX(num) + 1`) is its length: the
      whole stack is active. */
  lemma PasteConsecutive(dest: seq<Row>, src: seq<Row>, end: Option<int>, merge: bool, ops: seq<nat>, oneInstance: Catalog)
    requires Consecutive(dest)
    ensures var h := PasteOnto(dest, src, end, merge, ops, oneInstance).history;
      Consecutive(h) && HistoryEnd(h) == if h == [] then None else Some(|h|)
  {
    if merge {
      MergeModeConsecutive(dest, src, end, ops, oneInstance);
      ConsecutiveEnd(PasteMerge(dest, src, end, ops, oneInstance).history);
    } else {
      WrittenConsecutive([], StagedRows(src, false, ops));
      ConsecutiveEnd(PasteReplace(src, ops).history);
    }
  }

  /** Replace mode: the destination history becomes the selected source
      rows, in order, numbered from 0; nothing of the old history survives. */
  lemma ReplaceRenumbers(src: seq<Row>, ops: seq<nat>)
    ensures var h := PasteReplace(src, ops).history;
      |h| == |SelectRows(src, ops)| &&
      forall k :: 0 <= k < |h| ==> h[k] == SelectRows(src, ops)[k].(num := k)
  {
    var s := SelectRows(src, ops);
    var h := PasteReplace(src, ops).history;
    assert StagedRows(src, false, ops) == s;
    forall k | 0 <= k < |h| ensures h[k] == s[k].(num := k) {
      assert h[0 + k] == s[k].(num := 0 + k);
    }
  }

  /** Merge mode: the rows kept from the destination come first, changed
      at most in `multi_priority` ... */
  lemma StagesKeep(base: seq<Row>, s1: seq<Row>, oneInstance: Catalog)
    ensures |Stages(base, s1, oneInstance).history| == |base| + |Stages(base, s1, oneInstance).staging|
    ensures forall i :: 0 <= i < |base| ==> SameButPriority(Stages(base, s1, oneInstance).history[i], base[i])
  {
    var m := Merged(base, s1, oneInstance);
    MergedKeepsFields(base, s1, oneInstance);
    forall i | 0 <= i < |base| {
      WrittenKeeps(m, MergedStaging(base, s1, oneInstance), MaxNum(base) + 1, i);
    }
  }

  /** ... the staged rows follow them, numbered from one above the highest
      kept `num` ... */
  lemma StagesAppend(base: seq<Row>, s1: seq<Row>, oneInstance: Catalog, k: int)
    requires 0 <= k < |Stages(base, s1, oneInstance).staging|
    ensures var p := Stages(base, s1, oneInstance);
      |base| + k < |p.history| && p.history[|base| + k] == p.staging[k].(num := MaxNum(base) + 1 + k)
  {
    StagesWritten(Stages(base, s1, oneInstance), Merged(base, s1, oneInstance), |base|, MaxNum(base) + 1, k);
  }

  lemma StagesWritten(p: Pasted, m: seq<Row>, n: int, offs: int, k: int)
    requires p.history == Written(m, p.staging, offs) && |m| == n && 0 <= k < |p.staging|
    ensures n + k < |p.history| && p.history[n + k] == p.staging[k].(num := offs + k)
  {
    WrittenAt(m, p.staging, offs, k);
  }

  /** ... and above every kept row. */
  lemma StagesAbove(base: seq<Row>, s1: seq<Row>, oneInstance: Catalog, i: int, j: int)
    requires 0 <= i < |base| <= j < |Stages(base, s1, oneInstance).history|
    ensures Stages(base, s1, oneInstance).history[i].num < Stages(base, s1, oneInstance).history[j].num
  {
    var m := Merged(base, s1, oneInstance);
    MergedKeepsFields(base, s1, oneInstance);
    var s2 := MergedStaging(base, s1, oneInstance);
    WrittenKeeps(m, s2, MaxNum(base) + 1, i);
    WrittenAt(m, s2, MaxNum(base) + 1, j - |m|);
  }

  /** In merge mode the kept rows are those of the destination below
      `history_end`. */
  lemma MergeKeepsBelowEnd(dest: seq<Row>, src: seq<Row>, end: Option<int>, ops: seq<nat>, oneInstance: Catalog, i: int)
    requires end.Some? && 0 <= i < |Trim(dest, end)|
    ensures i < |PasteMerge(dest, src, end, ops, oneInstance).history|
    ensures PasteMerge(dest, src, end, ops, oneInstance).history[i].num < end.value
  {
    var base := Trim(dest, end);
    var s1 := CleanedUp(StagedRows(src, true, ops), oneInstance);
    StagesKeep(base, s1, oneInstance);
    TrimKeeps(dest, end);
    assert base[i] in base;
  }

  /** Merge mode, with distinct stack positions in the source: the pasted
      rows carry the renumbered instances of the clean-up, so those of each
      multi-instance operation are numbered 0 .. k-1. */
  lemma MergeInstances(dest: seq<Row>, src: seq<Row>, end: Option<int>, ops: seq<nat>, oneInstance: Catalog, k: int)
    requires DistinctNums(src)
    requires 0 <= k < |StagedRows(src, true, ops)|
    ensures var p := PasteMerge(dest, src, end, ops, oneInstance); var base := Trim(dest, end);
      |p.history| == |base| + |StagedRows(src, true, ops)| &&
      p.history[|base| + k].multiPriority == Normalised(StagedRows(src, true, ops), oneInstance)[k].multiPriority
  {
    var base := Trim(dest, end);
    var s0 := StagedRows(src, true, ops);
    StagedRowsDistinctNums(src, true, ops);
    CleanedUpNormalises(s0, oneInstance);
    var s1 := CleanedUp(s0, oneInstance);
    MergedStagingRows(base, s1, oneInstance);
    StagesAppend(base, s1, oneInstance, k);
  }
  /** Merge mode, with distinct stack positions in the source: the clean-up
      numbers the staged instances of each multi-instance operation apart,
      which is what the reconciliation needs. */
  lemma CleanedUpApart(src: seq<Row>, ops: seq<nat>, oneInstance: Catalog)
    requires DistinctNums(src)
    ensures var s1 := CleanedUp(StagedRows(src, true, ops), oneInstance);
      forall k1, k2 ::
        (0 <= k1 < |s1| && 0 <= k2 < |s1| && k1 != k2 &&
         s1[k1].operation == s1[k2].operation && !oneInstance(s1[k1].operation)) ==>
        s1[k1].multiPriority != s1[k2].multiPriority
  {
    var s0 := StagedRows(src, true, ops);
    StagedRowsDistinctNums(src, true, ops);
    CleanedUpNormalises(s0, oneInstance);
    var s1 := Normalised(s0, oneInstance);
    forall k1, k2 | 0 <= k1 < |s1| && 0 <= k2 < |s1| && k1 != k2 &&
      s1[k1].operation == s1[k2].operation && !oneInstance(s1[k1].operation)
      ensures s1[k1].multiPriority != s1[k2].multiPriority
    {
      NormalisedKeeps(s0, oneInstance, k1);
      NormalisedKeeps(s0, oneInstance, k2);
      NormalisedDistinct(s0, oneInstance, k1, k2);
    }
  }

  /** Merge mode: two kept destination rows of a staged multi-instance
      operation end up with the same instance number exactly when they had
      it before, on a destination with non-negative numbers and non-empty
      names and a source with distinct stack positions. */
  lemma MergeKeptDistinct(dest: seq<Row>, src: seq<Row>, end: Option<int>, ops: seq<nat>, oneInstance: Catalog, i: int, j: int)
    requires DistinctNums(src) && PlainHistory(Trim(dest, end))
    requires 0 <= i < |Trim(dest, end)| && 0 <= j < |Trim(dest, end)|
    requires Trim(dest, end)[i].operation == Trim(dest, end)[j].operation
    requires HasOp(StagedRows(src, true, ops), Trim(dest, end)[i].operation) && !oneInstance(Trim(dest, end)[i].operation)
    ensures var h := PasteMerge(dest, src, end, ops, oneInstance).history;
      i < |h| && j < |h| &&
      (h[i].multiPriority == h[j].multiPriority <==> Trim(dest, end)[i].multiPriority == Trim(dest, end)[j].multiPriority)
  {
    var base := Trim(dest, end);
    var s1 := CleanedUp(StagedRows(src, true, ops), oneInstance);
    CleanedUpHasOp(src, ops, oneInstance, base[i].operation);
    CleanedUpApart(src, ops, oneInstance);
    StagesKeptDistinct(base, s1, oneInstance, i, j);
  }

  /** The same for the later stages of a merge, from any staging table whose
      multi-instance operations are numbered apart. */
  lemma StagesKeptDistinct(base: seq<Row>, s1: seq<Row>, oneInstance: Catalog, i: int, j: int)
    requires PlainHistory(base) && 0 <= i < |base| && 0 <= j < |base|
    requires base[i].operation == base[j].operation && HasOp(s1, base[i].operation) && !oneInstance(base[i].operation)
    requires forall k1, k2 ::
      (0 <= k1 < |s1| && 0 <= k2 < |s1| && k1 != k2 &&
       s1[k1].operation == s1[k2].operation && !oneInstance(s1[k1].operation)) ==>
      s1[k1].multiPriority != s1[k2].multiPriority
    ensures var h := Stages(base, s1, oneInstance).history;
      i < |h| && j < |h| && (h[i].multiPriority == h[j].multiPriority <==> base[i].multiPriority == base[j].multiPriority)
  {
    var m := Merged(base, s1, oneInstance);
    MergedDistinct(base, s1, oneInstance, i, j);
    WrittenPair(Stages(base, s1, oneInstance), m, MaxNum(base) + 1, i, j);
  }

  lemma CleanedUpHasOp(src: seq<Row>, ops: seq<nat>, oneInstance: Catalog, op: string)
    requires DistinctNums(src) && HasOp(StagedRows(src, true, ops), op)
    ensures HasOp(CleanedUp(StagedRows(src, true, ops), oneInstance), op)
  {
    var s0 := StagedRows(src, true, ops);
    var k :| 0 <= k < |s0| && s0[k].operation == op;
    StagedRowsDistinctNums(src, true, ops);
    CleanedUpNormalises(s0, oneInstance);
    NormalisedKeeps(s0, oneInstance, k);
    assert CleanedUp(s0, oneInstance)[k].operation == op;
  }

  lemma WrittenPair(p: Pasted, m: seq<Row>, offs: int, i: int, j: int)
    requires p.history == Written(m, p.staging, offs) && 0 <= i < |m| && 0 <= j < |m|
    ensures i < |p.history| && j < |p.history| && p.history[i] == m[i] && p.history[j] == m[j]
  {
    WrittenKeeps(m, p.staging, offs, i);
    WrittenKeeps(m, p.staging, offs, j);
  }
}
