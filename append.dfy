/** The append shift of `_history_rebuild_multi_priority_append`: before the
    incoming rows are merged, every destination row of a staged
    multi-instance operation is moved above the staged instances of that
    operation. */
module Append {
  import opened Order
  import opened Tables
  import opened Normalise

  /** `IFNULL(MAX(multi_priority), -1) + 1` over the staging rows of `op`. */
  function ShiftOf(s: seq<Row>, op: string): (n: int)
    ensures forall k :: 0 <= k < |s| && s[k].operation == op ==> s[k].multiPriority < n
    ensures !HasOp(s, op) ==> n == 0
  {
    match MaxMi(s, op)
    case None => 0
    case Some(m) => m + 1
  }

  /** `UPDATE main.history SET multi_priority = multi_priority + (...) WHERE operation = op`
      on the rows of one image. */
  function ShiftOp(h: seq<Row>, s: seq<Row>, op: string): (r: seq<Row>)
    ensures |r| == |h|
  {
    seq(|h|, i requires 0 <= i < |h| =>
      if h[i].operation == op then h[i].(multiPriority := h[i].multiPriority + ShiftOf(s, op)) else h[i])
  }

  /** The history of the destination image once every staged operation that
      is not one-instance has been shifted. */
  function Shifted(h: seq<Row>, s: seq<Row>, oneInstance: Catalog): (r: seq<Row>)
    ensures |r| == |h|
  {
    seq(|h|, i requires 0 <= i < |h| =>
      if HasOp(s, h[i].operation) && !oneInstance(h[i].operation)
      then h[i].(multiPriority := h[i].multiPriority + ShiftOf(s, h[i].operation))
      else h[i])
  }

  /** `SELECT DISTINCT operation FROM memory.style_items`, in order of first appearance. */
  function DistinctOps(s: seq<Row>): (r: seq<string>)
    ensures forall op :: op in r <==> HasOp(s, op)
    ensures forall a, b :: 0 <= a < b < |r| ==> r[a] != r[b]
  {
    if s == [] then []
    else
      var init := s[..|s| - 1];
      var rest := DistinctOps(init);
      assert forall i :: 0 <= i < |init| ==> init[i] == s[i];
      assert forall op :: HasOp(s, op) <==> HasOp(init, op) || s[|s| - 1].operation == op;
      if s[|s| - 1].operation in rest then rest else rest + [s[|s| - 1].operation]
  }

  /** Each shifted row ends up above every staged instance of its operation,
      provided its old number was not negative; nothing else in the row changes. */
  lemma ShiftedAbove(h: seq<Row>, s: seq<Row>, oneInstance: Catalog, i: int, k: int)
    requires 0 <= i < |h| && 0 <= k < |s|
    requires s[k].operation == h[i].operation && !oneInstance(h[i].operation)
    requires h[i].multiPriority >= 0
    ensures Shifted(h, s, oneInstance)[i].multiPriority > s[k].multiPriority
    ensures SameButPriority(Shifted(h, s, oneInstance)[i], h[i])
  {
    assert HasOp(s, h[i].operation);
  }

  /** Rows of operations that are not staged, and rows of one-instance
      operations, keep their number. */
  lemma ShiftedKeeps(h: seq<Row>, s: seq<Row>, oneInstance: Catalog, i: int)
    requires 0 <= i < |h|
    requires !HasOp(s, h[i].operation) || oneInstance(h[i].operation)
    ensures Shifted(h, s, oneInstance)[i] == h[i]
  {
  }

  /** The shift is the staged maximum plus one, for every row of a staged
      multi-instance operation. */
  lemma ShiftedBy(h: seq<Row>, s: seq<Row>, oneInstance: Catalog, i: int)
    requires 0 <= i < |h| && HasOp(s, h[i].operation) && !oneInstance(h[i].operation)
    ensures MaxMi(s, h[i].operation).Some?
    ensures Shifted(h, s, oneInstance)[i].multiPriority == h[i].multiPriority + MaxMi(s, h[i].operation).value + 1
  {
  }

  // ----- the loop of `_history_rebuild_multi_priority_append` -----

  /** The destination history once the operations `done` have been
      visited: each visited multi-instance operation shifted once. */
  function ShiftedFor(h: seq<Row>, s: seq<Row>, oneInstance: Catalog, done: seq<string>): (r: seq<Row>)
    ensures |r| == |h|
  {
    seq(|h|, i requires 0 <= i < |h| =>
      if h[i].operation in done && !oneInstance(h[i].operation)
      then h[i].(multiPriority := h[i].multiPriority + ShiftOf(s, h[i].operation))
      else h[i])
  }

  /** Visiting a new multi-instance operation is one `UPDATE ... WHERE operation = op` ... */
  lemma ShiftedForStep(h: seq<Row>, s: seq<Row>, oneInstance: Catalog, done: seq<string>, op: string)
    requires op !in done && !oneInstance(op)
    ensures ShiftOp(ShiftedFor(h, s, oneInstance, done), s, op) == ShiftedFor(h, s, oneInstance, done + [op])
  {
  }

  /** ... and visiting a one-instance operation changes nothing. */
  lemma ShiftedForSkip(h: seq<Row>, s: seq<Row>, oneInstance: Catalog, done: seq<string>, op: string)
    requires oneInstance(op)
    ensures ShiftedFor(h, s, oneInstance, done + [op]) == ShiftedFor(h, s, oneInstance, done)
  {
  }

  /** Nothing is shifted before the loop, and after it every staged
      multi-instance operation has been. */
  lemma ShiftedForEnds(h: seq<Row>, s: seq<Row>, oneInstance: Catalog)
    ensures ShiftedFor(h, s, oneInstance, []) == h
    ensures ShiftedFor(h, s, oneInstance, DistinctOps(s)) == Shifted(h, s, oneInstance)
  {
  }
}
