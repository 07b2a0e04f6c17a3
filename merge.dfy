/** The reconciliation of `dt_history_rebuild_multi_priority_merge`: after
    the append shift, the destination's instances of every staged operation
    are walked in (operation, multi_priority) order.  An instance whose
    multi_name names a staged row not yet used takes over that row's
    multi_priority and uses the row up; any other instance is pushed to the
    next free number above the staged ones. */
module Merge {
  import opened Order
  import opened Tables
  import opened Normalise
  import opened Append
  import opened Staging

  // ----- the walked groups -----

  /** Sort keys `(operation, multi_priority, position)` of the rows `MAX(num)`
      picks among the first `n` rows, for the operations that are staged. */
  function GroupKeys(h: seq<Row>, s: seq<Row>, n: nat): (r: seq<Key>)
    requires n <= |h|
    ensures forall k :: k in r <==>
      exists i :: 0 <= i < n && IsLatest(h, i) && HasOp(s, h[i].operation) && k == Key(h[i].operation, h[i].multiPriority, i)
    ensures forall a, b :: 0 <= a < b < |r| ==> r[a].pos < r[b].pos
    ensures forall a :: 0 <= a < |r| ==>
      (0 <= r[a].pos < n && IsLatest(h, r[a].pos) && HasOp(s, h[r[a].pos].operation) &&
       r[a] == Key(h[r[a].pos].operation, h[r[a].pos].multiPriority, r[a].pos))
  {
    if n == 0 then []
    else if IsLatest(h, n - 1) && HasOp(s, h[n - 1].operation) then
      GroupKeys(h, s, n - 1) + [Key(h[n - 1].operation, h[n - 1].multiPriority, n - 1)]
    else GroupKeys(h, s, n - 1)
  }

  /** `SELECT MAX(num), operation, multi_priority, multi_name FROM main.history
      WHERE ... EXISTS (staged operation) GROUP BY operation, multi_priority
      ORDER BY operation, multi_priority`: one row per group, the one with
      the greatest `num`, which also gives the group's multi_name. */
  function Groups(h: seq<Row>, s: seq<Row>): seq<Row>
  {
    var ks := Sort(GroupKeys(h, s, |h|));
    assert forall a :: 0 <= a < |ks| ==> ks[a] in GroupKeys(h, s, |h|);
    RowsAt(h, ks)
  }

  /** Strictly ascending in (operation, multi_priority). */
  predicate Ascending(g: seq<Row>)
  {
    forall a, b :: 0 <= a < b < |g| ==>
      StrLt(g[a].operation, g[b].operation) ||
      (g[a].operation == g[b].operation && g[a].multiPriority < g[b].multiPriority)
  }

  lemma AscendingSameOp(g: seq<Row>, a: int, b: int)
    requires Ascending(g) && 0 <= a < b < |g| && g[a].operation == g[b].operation
    ensures g[a].multiPriority < g[b].multiPriority
  {
    StrLtIrreflexive(g[a].operation);
  }

  lemma GroupsSorted(h: seq<Row>, s: seq<Row>)
    ensures Sorted(Sort(GroupKeys(h, s, |h|)))
    ensures forall a :: 0 <= a < |Sort(GroupKeys(h, s, |h|))| ==>
      Sort(GroupKeys(h, s, |h|))[a] in GroupKeys(h, s, |h|)
  {
    var gk := GroupKeys(h, s, |h|);
    assert Distinct(gk);
    SortSorted(gk);
  }

  /** The groups come in strictly ascending (operation, multi_priority) order ... */
  lemma GroupsAscending(h: seq<Row>, s: seq<Row>)
    ensures Ascending(Groups(h, s))
  {
    GroupsSorted(h, s);
    var ks := Sort(GroupKeys(h, s, |h|));
    var g := Groups(h, s);
    forall a, b | 0 <= a < b < |g|
      ensures StrLt(g[a].operation, g[b].operation) ||
        (g[a].operation == g[b].operation && g[a].multiPriority < g[b].multiPriority)
    {
      assert ks[a] in GroupKeys(h, s, |h|) && ks[b] in GroupKeys(h, s, |h|);
      assert KeyLt(ks[a], ks[b]);
      if SameInstance(g[a], g[b]) {
        LatestUnique(h, ks[a].pos, ks[b].pos);
        KeyLtIrreflexive(ks[a]);
      }
    }
  }

  /** ... each is the row `MAX(num)` picks for an instance of a staged operation ... */
  lemma GroupsLatest(h: seq<Row>, s: seq<Row>, t: int)
    requires 0 <= t < |Groups(h, s)|
    ensures exists i :: IsLatest(h, i) && HasOp(s, h[i].operation) && Groups(h, s)[t] == h[i]
  {
    GroupsSorted(h, s);
    var ks := Sort(GroupKeys(h, s, |h|));
    assert ks[t] in GroupKeys(h, s, |h|);
  }

  /** ... and every row of a staged operation belongs to one of them. */
  lemma GroupsCover(h: seq<Row>, s: seq<Row>, i: int)
    requires 0 <= i < |h| && HasOp(s, h[i].operation)
    ensures exists t :: 0 <= t < |Groups(h, s)| && SameInstance(Groups(h, s)[t], h[i])
  {
    var gk := GroupKeys(h, s, |h|);
    var ks := Sort(gk);
    var g := Groups(h, s);
    LatestExists(h, i);
    var j :| IsLatest(h, j) && SameInstance(h[j], h[i]);
    var k := Key(h[j].operation, h[j].multiPriority, j);
    assert k in gk;
    assert k in ks;
    var t :| 0 <= t < |ks| && ks[t] == k;
    assert g[t] == h[j];
  }

  // ----- one pass of the loop -----

  /** What the loop did with one group. */
  datatype Outcome =
    | Skipped                   // one-instance operation: `continue`
    | Took(row: nat, mi: int)   // matched staging row `row`, takes its multi_priority `mi`
    | Pushed(mi: int)           // renumbered to `multi_priority_next`

  /** The loop's variables: the staging table, `operation_prev`,
      `multi_priority_next`, and what was done with each group so far. */
  datatype Loop = Loop(staging: seq<Row>, prev: string, next: int, outcomes: seq<Outcome>)

  /** An aggregate always yields a row; its NULL reads as 0 through `sqlite3_column_int`. */
  function NullAsZero(m: Option<int>): int
  {
    match m
    case None => 0
    case Some(v) => v
  }

  /** `SELECT ... FROM memory.style_items WHERE operation = op AND multi_name = name AND num >= 0`,
      first row: the lowest row index from `k` on. */
  function FirstMatch(s: seq<Row>, op: string, name: string, k: nat): (r: Option<nat>)
    requires k <= |s|
    ensures r.Some? ==> k <= r.value < |s| && s[r.value].operation == op && s[r.value].multiName == name && s[r.value].num >= 0
    ensures r.Some? ==> forall j :: k <= j < r.value ==> !(s[j].operation == op && s[j].multiName == name && s[j].num >= 0)
    ensures r.None? <==> forall j :: k <= j < |s| ==> !(s[j].operation == op && s[j].multiName == name && s[j].num >= 0)
    decreases |s| - k
  {
    if k == |s| then None
    else if s[k].operation == op && s[k].multiName == name && s[k].num >= 0 then Some(k)
    else FirstMatch(s, op, name, k + 1)
  }

  /** `UPDATE memory.style_items SET num = -1 WHERE num = n`. */
  function Consume(s: seq<Row>, n: int): (r: seq<Row>)
    ensures |r| == |s|
  {
    seq(|s|, k requires 0 <= k < |s| => if s[k].num == n then s[k].(num := -1) else s[k])
  }

  /** `multi_priority_next` once the group is reached: re-read when the operation changes. */
  function NextBase(g: Row, st: Loop): int
  {
    if g.operation != st.prev then NullAsZero(MaxMi(st.staging, g.operation)) else st.next
  }

  /** The decision the loop body takes for group `g`. */
  function Decide(g: Row, st: Loop, oneInstance: Catalog): (o: Outcome)
    ensures o.Skipped? <==> oneInstance(g.operation)
    ensures o.Took? ==>
      (o.row < |st.staging| && st.staging[o.row].operation == g.operation &&
       st.staging[o.row].multiName == g.multiName && st.staging[o.row].num >= 0 &&
       o.mi == st.staging[o.row].multiPriority >= 0)
    ensures o.Pushed? ==> o.mi == NextBase(g, st) + 1
  {
    if oneInstance(g.operation) then Skipped
    else
      match FirstMatch(st.staging, g.operation, g.multiName, 0)
      case Some(k) =>
        if st.staging[k].multiPriority >= 0 then Took(k, st.staging[k].multiPriority)
        else Pushed(NextBase(g, st) + 1)
      case None => Pushed(NextBase(g, st) + 1)
  }

  /** The loop variables after group `g`. */
  function Step(g: Row, st: Loop, oneInstance: Catalog): (r: Loop)
    ensures |r.staging| == |st.staging|
    ensures r.outcomes == st.outcomes + [Decide(g, st, oneInstance)]
  {
    var o := Decide(g, st, oneInstance);
    match o
    case Skipped => st.(outcomes := st.outcomes + [o])
    case Took(k, _) => Loop(Consume(st.staging, st.staging[k].num), g.operation, NextBase(g, st), st.outcomes + [o])
    case Pushed(v) => Loop(st.staging, g.operation, v, st.outcomes + [o])
  }

  /** The loop variables after the groups `g`, starting from `operation_prev = ""`
      and `multi_priority_next = -1`. */
  function Run(g: seq<Row>, s0: seq<Row>, oneInstance: Catalog): (r: Loop)
    ensures |r.outcomes| == |g| && |r.staging| == |s0|
  {
    if g == [] then Loop(s0, "", -1, [])
    else Step(g[|g| - 1], Run(g[..|g| - 1], s0, oneInstance), oneInstance)
  }

  /** `UPDATE main.history SET multi_priority = to WHERE operation = op AND multi_priority = from`. */
  function Relabel(h: seq<Row>, op: string, from: int, to: int): (r: seq<Row>)
    ensures |r| == |h|
  {
    seq(|h|, i requires 0 <= i < |h| =>
      if h[i].operation == op && h[i].multiPriority == from then h[i].(multiPriority := to) else h[i])
  }

  /** The destination history after the history UPDATEs of the first `|outs|` groups. */
  function ApplyOutcomes(h: seq<Row>, g: seq<Row>, outs: seq<Outcome>): (r: seq<Row>)
    requires |outs| <= |g|
    ensures |r| == |h|
  {
    if outs == [] then h
    else
      var t := |outs| - 1;
      var before := ApplyOutcomes(h, g, outs[..t]);
      if outs[t].Skipped? then before else Relabel(before, g[t].operation, g[t].multiPriority, outs[t].mi)
  }

  // ----- the loop, one group at a time -----

  lemma RunPrefix(g: seq<Row>, s0: seq<Row>, oneInstance: Catalog, t: int)
    requires 0 <= t < |g|
    ensures Run(g[..t + 1], s0, oneInstance) == Step(g[t], Run(g[..t], s0, oneInstance), oneInstance)
  {
    assert g[..t + 1][..t] == g[..t];
  }

  /** The decisions of a shorter walk are a prefix of those of a longer one. */
  lemma {:induction false} RunOutcomesPrefix(g: seq<Row>, s0: seq<Row>, oneInstance: Catalog, t: int)
    requires 0 <= t <= |g|
    ensures Run(g[..t], s0, oneInstance).outcomes == Run(g, s0, oneInstance).outcomes[..t]
    decreases |g| - t
  {
    if t < |g| {
      RunOutcomesPrefix(g, s0, oneInstance, t + 1);
      RunPrefix(g, s0, oneInstance, t);
      assert Run(g[..t + 1], s0, oneInstance).outcomes[..t] == Run(g[..t], s0, oneInstance).outcomes;
    } else {
      assert g[..t] == g;
    }
  }

  /** Group `t` is decided on the loop state the earlier groups left. */
  lemma OutcomeAt(g: seq<Row>, s0: seq<Row>, oneInstance: Catalog, t: int)
    requires 0 <= t < |g|
    ensures Run(g, s0, oneInstance).outcomes[t] == Decide(g[t], Run(g[..t], s0, oneInstance), oneInstance)
  {
    RunOutcomesPrefix(g, s0, oneInstance, t + 1);
    RunPrefix(g, s0, oneInstance, t);
  }

  /** The loop only ever overwrites `num` of staging rows with -1, and every
      row it has taken is marked so. */
  lemma {:induction false} RunStaging(g: seq<Row>, s0: seq<Row>, oneInstance: Catalog, t: int)
    requires 0 <= t <= |g|
    ensures forall k :: 0 <= k < |s0| ==>
      Run(g[..t], s0, oneInstance).staging[k] == s0[k] || Run(g[..t], s0, oneInstance).staging[k] == s0[k].(num := -1)
    ensures forall u :: 0 <= u < t && Run(g[..t], s0, oneInstance).outcomes[u].Took? ==>
      Run(g[..t], s0, oneInstance).outcomes[u].row < |s0| &&
      Run(g[..t], s0, oneInstance).staging[Run(g[..t], s0, oneInstance).outcomes[u].row].num == -1
  {
    if t > 0 {
      RunStaging(g, s0, oneInstance, t - 1);
      RunPrefix(g, s0, oneInstance, t - 1);
      var st := Run(g[..t - 1], s0, oneInstance);
      var o := Decide(g[t - 1], st, oneInstance);
      var r := Run(g[..t], s0, oneInstance);
      assert r == Step(g[t - 1], st, oneInstance);
      assert r.outcomes[..t - 1] == st.outcomes;
    }
  }

  /** Only `num` of the staging rows changes, so their maximum instance number does not. */
  lemma {:induction false} MaxMiIgnoresNum(s0: seq<Row>, s1: seq<Row>, op: string)
    requires |s0| == |s1|
    requires forall k :: 0 <= k < |s0| ==> s1[k] == s0[k] || s1[k] == s0[k].(num := -1)
    ensures MaxMi(s1, op) == MaxMi(s0, op)
  {
    if s0 != [] {
      var n := |s0| - 1;
      MaxMiIgnoresNum(s0[..n], s1[..n], op);
    }
  }

  /** A staging row the loop takes matches the group by operation and
      multi_name, was not used up yet, and gives its multi_priority. */
  lemma TookRow(g: seq<Row>, s0: seq<Row>, oneInstance: Catalog, t: int)
    requires 0 <= t < |g| && Run(g, s0, oneInstance).outcomes[t].Took?
    ensures var o := Run(g, s0, oneInstance).outcomes[t];
      o.row < |s0| && s0[o.row].operation == g[t].operation && s0[o.row].multiName == g[t].multiName &&
      s0[o.row].num >= 0 && Run(g[..t], s0, oneInstance).staging[o.row].num >= 0 &&
      o.mi == s0[o.row].multiPriority >= 0 && !oneInstance(g[t].operation)
  {
    OutcomeAt(g, s0, oneInstance, t);
    RunStaging(g, s0, oneInstance, t);
  }

  /** A staging row that has been taken is never taken again. */
  lemma TookOnce(g: seq<Row>, s0: seq<Row>, oneInstance: Catalog, t1: int, t2: int)
    requires 0 <= t1 < t2 < |g|
    requires Run(g, s0, oneInstance).outcomes[t1].Took? && Run(g, s0, oneInstance).outcomes[t2].Took?
    ensures Run(g, s0, oneInstance).outcomes[t1].row != Run(g, s0, oneInstance).outcomes[t2].row
  {
    TookRow(g, s0, oneInstance, t2);
    RunStaging(g, s0, oneInstance, t2);
    RunOutcomesPrefix(g, s0, oneInstance, t2);
  }

  // ----- numbering of the pushed groups -----

  /** How many of the first `|outs|` groups of operation `o` were pushed. */
  function PushCount(g: seq<Row>, outs: seq<Outcome>, o: string): nat
    requires |outs| <= |g|
  {
    if outs == [] then 0
    else
      var t := |outs| - 1;
      PushCount(g, outs[..t], o) + (if g[t].operation == o && outs[t].Pushed? then 1 else 0)
  }

  lemma {:induction false} PushCountNone(g: seq<Row>, outs: seq<Outcome>, o: string)
    requires |outs| <= |g|
    requires forall u :: 0 <= u < |outs| && g[u].operation == o ==> !outs[u].Pushed?
    ensures PushCount(g, outs, o) == 0
  {
    if outs != [] {
      PushCountNone(g, outs[..|outs| - 1], o);
    }
  }

  lemma {:induction false} PushCountMonotone(g: seq<Row>, outs: seq<Outcome>, o: string, n: int)
    requires |outs| <= |g| && 0 <= n <= |outs|
    ensures PushCount(g, outs[..n], o) <= PushCount(g, outs, o)
  {
    if n < |outs| {
      var t := |outs| - 1;
      assert outs[..t][..n] == outs[..n];
      PushCountMonotone(g, outs[..t], o, n);
    } else {
      assert outs[..n] == outs;
    }
  }

  /** How many of the first `n` groups have operation `o`. */
  function SameOpCount(g: seq<Row>, o: string, n: nat): nat
    requires n <= |g|
  {
    if n == 0 then 0 else SameOpCount(g, o, n - 1) + (if g[n - 1].operation == o then 1 else 0)
  }

  lemma {:induction false} PushCountBelow(g: seq<Row>, outs: seq<Outcome>, o: string)
    requires |outs| <= |g|
    ensures PushCount(g, outs, o) <= SameOpCount(g, o, |outs|)
  {
    if outs != [] {
      PushCountBelow(g, outs[..|outs| - 1], o);
    }
  }

  /** In an ascending walk whose groups of `o` all sit at `lo` or above, fewer
      than `m - lo + 1` groups of `o` come before a bound `m` they all lie under. */
  lemma {:induction false} SameOpCountBound(g: seq<Row>, o: string, lo: int, m: int, n: nat)
    requires Ascending(g) && n <= |g|
    requires forall u :: 0 <= u < |g| && g[u].operation == o ==> g[u].multiPriority >= lo
    requires forall u :: 0 <= u < n && g[u].operation == o ==> g[u].multiPriority < m
    requires lo <= m
    ensures SameOpCount(g, o, n) <= m - lo
    decreases n
  {
    if n > 0 {
      if g[n - 1].operation == o {
        forall u | 0 <= u < n - 1 && g[u].operation == o ensures g[u].multiPriority < g[n - 1].multiPriority {
          AscendingSameOp(g, u, n - 1);
        }
        SameOpCountBound(g, o, lo, g[n - 1].multiPriority, n - 1);
      } else {
        SameOpCountBound(g, o, lo, m, n - 1);
      }
    }
  }

  /** The facts about `operation_prev` and `multi_priority_next` the loop keeps
      on an ascending walk: `operation_prev` is the latest operation that was
      not skipped, and `multi_priority_next` is the staged maximum of that
      operation plus the number of its groups pushed so far. */
  predicate NextInvariant(g: seq<Row>, s0: seq<Row>, oneInstance: Catalog, t: int, st: Loop)
    requires 0 <= t <= |g| && |st.outcomes| == t
  {
    (forall u :: 0 <= u < t && !oneInstance(g[u].operation) ==> StrLe(g[u].operation, st.prev)) &&
    (forall x :: t <= x < |g| ==> StrLe(st.prev, g[x].operation)) &&
    (st.prev != "" ==> st.next == NullAsZero(MaxMi(s0, st.prev)) + PushCount(g, st.outcomes, st.prev))
  }

  /** A group is skipped exactly when its operation is one-instance. */
  lemma {:induction false} RunSkips(g: seq<Row>, s0: seq<Row>, oneInstance: Catalog, t: int)
    requires 0 <= t <= |g|
    ensures forall u :: 0 <= u < t ==> (Run(g[..t], s0, oneInstance).outcomes[u].Skipped? <==> oneInstance(g[u].operation))
  {
    if t > 0 {
      RunSkips(g, s0, oneInstance, t - 1);
      RunPrefix(g, s0, oneInstance, t - 1);
      assert g[..t][t - 1] == g[t - 1];
    }
  }

  /** What one pass does to `operation_prev` and `multi_priority_next`. */
  lemma StepFields(g: Row, st: Loop, oneInstance: Catalog)
    ensures var r := Step(g, st, oneInstance); var o := Decide(g, st, oneInstance);
      (o.Skipped? ==> r.prev == st.prev && r.next == st.next) &&
      (o.Took? ==> r.prev == g.operation && r.next == NextBase(g, st)) &&
      (o.Pushed? ==> r.prev == g.operation && r.next == o.mi)
  {
  }

  lemma PushCountSnoc(g: seq<Row>, outs: seq<Outcome>, x: Outcome, o: string)
    requires |outs| < |g|
    ensures PushCount(g, outs + [x], o) == PushCount(g, outs, o) + (if g[|outs|].operation == o && x.Pushed? then 1 else 0)
  {
    assert (outs + [x])[..|outs|] == outs;
  }

  /** One pass of the loop keeps `NextInvariant`. */
  lemma NextStep(g: seq<Row>, s0: seq<Row>, oneInstance: Catalog, u: int, st: Loop)
    requires 0 <= u < |g| && Ascending(g) && |st.outcomes| == u
    requires !oneInstance(g[u].operation) ==> g[u].operation != ""
    requires NextInvariant(g, s0, oneInstance, u, st)
    requires forall v :: 0 <= v < u && st.outcomes[v].Pushed? ==> !oneInstance(g[v].operation)
    requires MaxMi(st.staging, g[u].operation) == MaxMi(s0, g[u].operation)
    ensures NextInvariant(g, s0, oneInstance, u + 1, Step(g[u], st, oneInstance))
  {
    var r := Step(g[u], st, oneInstance);
    var o := Decide(g[u], st, oneInstance);
    var op := g[u].operation;
    StepFields(g[u], st, oneInstance);
    PushCountSnoc(g, st.outcomes, o, r.prev);
    if o.Skipped? {
      assert r.prev == st.prev && r.next == st.next;
    } else {
      NextStepActive(g, s0, oneInstance, u, st);
    }
  }

  lemma NextStepActive(g: seq<Row>, s0: seq<Row>, oneInstance: Catalog, u: int, st: Loop)
    requires 0 <= u < |g| && Ascending(g) && |st.outcomes| == u
    requires !oneInstance(g[u].operation) && g[u].operation != ""
    requires NextInvariant(g, s0, oneInstance, u, st)
    requires forall v :: 0 <= v < u && st.outcomes[v].Pushed? ==> !oneInstance(g[v].operation)
    requires MaxMi(st.staging, g[u].operation) == MaxMi(s0, g[u].operation)
    ensures NextInvariant(g, s0, oneInstance, u + 1, Step(g[u], st, oneInstance))
  {
    var r := Step(g[u], st, oneInstance);
    var o := Decide(g[u], st, oneInstance);
    var op := g[u].operation;
    var t := u + 1;
    StepFields(g[u], st, oneInstance);
    PushCountSnoc(g, st.outcomes, o, op);
    assert r.prev == op;
    assert forall x :: t <= x < |g| ==> StrLe(op, g[x].operation);
    forall v | 0 <= v < t && !oneInstance(g[v].operation) ensures StrLe(g[v].operation, op) {
      if v < u { StrLeTransitive(g[v].operation, st.prev, op); }
    }
    if op != st.prev {
      forall v | 0 <= v < u && g[v].operation == op ensures !st.outcomes[v].Pushed? {
        if st.outcomes[v].Pushed? { StrLeAntisymmetric(op, st.prev); }
      }
      PushCountNone(g, st.outcomes, op);
    }
  }

  lemma {:induction false} RunNext(g: seq<Row>, s0: seq<Row>, oneInstance: Catalog, t: int)
    requires 0 <= t <= |g| && Ascending(g)
    requires forall x :: 0 <= x < |g| && !oneInstance(g[x].operation) ==> g[x].operation != ""
    ensures NextInvariant(g, s0, oneInstance, t, Run(g[..t], s0, oneInstance))
  {
    if t == 0 {
      forall x | 0 <= x < |g| ensures StrLe("", g[x].operation) { EmptyStrLeast(g[x].operation); }
    } else {
      var u := t - 1;
      RunNext(g, s0, oneInstance, u);
      RunPrefix(g, s0, oneInstance, u);
      RunStaging(g, s0, oneInstance, u);
      RunSkips(g, s0, oneInstance, u);
      var st := Run(g[..u], s0, oneInstance);
      MaxMiIgnoresNum(s0, st.staging, g[u].operation);
      NextStep(g, s0, oneInstance, u, st);
    }
  }

  /** A pushed group gets the staged maximum of its operation plus its rank
      among the pushed groups of that operation (1, 2, ...): it lands above
      every staged instance of the operation. */
  lemma PushedValue(g: seq<Row>, s0: seq<Row>, oneInstance: Catalog, t: int)
    requires 0 <= t < |g| && Ascending(g)
    requires forall x :: 0 <= x < |g| && !oneInstance(g[x].operation) ==> g[x].operation != ""
    requires Run(g, s0, oneInstance).outcomes[t].Pushed?
    ensures Run(g, s0, oneInstance).outcomes[t].mi ==
      NullAsZero(MaxMi(s0, g[t].operation)) + PushCount(g, Run(g, s0, oneInstance).outcomes[..t + 1], g[t].operation)
    ensures forall k :: 0 <= k < |s0| && s0[k].operation == g[t].operation ==>
      s0[k].multiPriority < Run(g, s0, oneInstance).outcomes[t].mi
  {
    OutcomeAt(g, s0, oneInstance, t);
    RunNext(g, s0, oneInstance, t + 1);
    RunOutcomesPrefix(g, s0, oneInstance, t + 1);
    RunPrefix(g, s0, oneInstance, t);
    var outs := Run(g, s0, oneInstance).outcomes;
    assert outs[..t + 1][..t] == outs[..t];
    var op := g[t].operation;
    if k :| 0 <= k < |s0| && s0[k].operation == op {
      assert HasOp(s0, op);
    }
  }

  /** The number a walked group ends up with never exceeds its current
      multi_priority, when the shifted groups all sit above the staged ones. */
  lemma ValueBound(g: seq<Row>, s0: seq<Row>, oneInstance: Catalog, t: int)
    requires 0 <= t < |g| && Ascending(g)
    requires forall x :: 0 <= x < |g| && !oneInstance(g[x].operation) ==> g[x].operation != ""
    requires forall x :: 0 <= x < |g| && !oneInstance(g[x].operation) ==>
      g[x].multiPriority >= NullAsZero(MaxMi(s0, g[x].operation)) + 1
    requires !Run(g, s0, oneInstance).outcomes[t].Skipped?
    ensures Run(g, s0, oneInstance).outcomes[t].mi <= g[t].multiPriority
  {
    var outs := Run(g, s0, oneInstance).outcomes;
    var op := g[t].operation;
    OutcomeAt(g, s0, oneInstance, t);
    if outs[t].Took? {
      TookRow(g, s0, oneInstance, t);
    } else {
      PushedValue(g, s0, oneInstance, t);
      var lo := NullAsZero(MaxMi(s0, op)) + 1;
      forall u | 0 <= u < t && g[u].operation == op ensures g[u].multiPriority < g[t].multiPriority {
        AscendingSameOp(g, u, t);
      }
      SameOpCountBound(g, op, lo, g[t].multiPriority, t);
      PushCountBelow(g, outs[..t + 1], op);
    }
  }

  /** No two walked groups of one operation end up with the same number,
      provided the staged instances of each operation are numbered apart. */
  lemma ValuesDistinct(g: seq<Row>, s0: seq<Row>, oneInstance: Catalog, t1: int, t2: int)
    requires 0 <= t1 < t2 < |g| && Ascending(g) && g[t1].operation == g[t2].operation
    requires forall x :: 0 <= x < |g| && !oneInstance(g[x].operation) ==> g[x].operation != ""
    requires forall k1, k2 ::
      (0 <= k1 < |s0| && 0 <= k2 < |s0| && k1 != k2 &&
       s0[k1].operation == s0[k2].operation && !oneInstance(s0[k1].operation)) ==>
      s0[k1].multiPriority != s0[k2].multiPriority
    requires !Run(g, s0, oneInstance).outcomes[t1].Skipped? && !Run(g, s0, oneInstance).outcomes[t2].Skipped?
    ensures Run(g, s0, oneInstance).outcomes[t1].mi != Run(g, s0, oneInstance).outcomes[t2].mi
  {
    var outs := Run(g, s0, oneInstance).outcomes;
    if outs[t1].Took? && outs[t2].Took? {
      TookRow(g, s0, oneInstance, t1);
      TookRow(g, s0, oneInstance, t2);
      TookOnce(g, s0, oneInstance, t1, t2);
    } else if outs[t1].Took? {
      TookPushedApart(g, s0, oneInstance, t1, t2);
    } else if outs[t2].Took? {
      TookPushedApart(g, s0, oneInstance, t2, t1);
    } else {
      PushedApart(g, s0, oneInstance, t1, t2);
    }
  }

  /** A group that takes a staged number and one pushed above the staged
      numbers of the same operation end up apart. */
  lemma TookPushedApart(g: seq<Row>, s0: seq<Row>, oneInstance: Catalog, ta: int, tb: int)
    requires 0 <= ta < |g| && 0 <= tb < |g| && Ascending(g) && g[ta].operation == g[tb].operation
    requires forall x :: 0 <= x < |g| && !oneInstance(g[x].operation) ==> g[x].operation != ""
    requires Run(g, s0, oneInstance).outcomes[ta].Took? && Run(g, s0, oneInstance).outcomes[tb].Pushed?
    ensures Run(g, s0, oneInstance).outcomes[ta].mi != Run(g, s0, oneInstance).outcomes[tb].mi
  {
    TookRow(g, s0, oneInstance, ta);
    PushedValue(g, s0, oneInstance, tb);
  }

  /** Two pushed groups of one operation get different numbers: each push
      counts one more. */
  lemma PushedApart(g: seq<Row>, s0: seq<Row>, oneInstance: Catalog, t1: int, t2: int)
    requires 0 <= t1 < t2 < |g| && Ascending(g) && g[t1].operation == g[t2].operation
    requires forall x :: 0 <= x < |g| && !oneInstance(g[x].operation) ==> g[x].operation != ""
    requires Run(g, s0, oneInstance).outcomes[t1].Pushed? && Run(g, s0, oneInstance).outcomes[t2].Pushed?
    ensures Run(g, s0, oneInstance).outcomes[t1].mi != Run(g, s0, oneInstance).outcomes[t2].mi
  {
    var outs := Run(g, s0, oneInstance).outcomes;
    var op := g[t1].operation;
    PushedValue(g, s0, oneInstance, t1);
    PushedValue(g, s0, oneInstance, t2);
    PushCountStrict(g, outs, op, t1, t2);
  }

  /** A later push of `o` counts strictly more pushes than an earlier point. */
  lemma PushCountStrict(g: seq<Row>, outs: seq<Outcome>, o: string, t1: int, t2: int)
    requires 0 <= t1 < t2 < |outs| <= |g| && g[t2].operation == o && outs[t2].Pushed?
    ensures PushCount(g, outs[..t1 + 1], o) < PushCount(g, outs[..t2 + 1], o)
  {
    assert outs[..t2 + 1][..t2] == outs[..t2];
    assert outs[..t2][..t1 + 1] == outs[..t1 + 1];
    PushCountMonotone(g, outs[..t2], o, t1 + 1);
  }

  // ----- the history UPDATEs -----

  /** A row whose instance no applied group names is left alone. */
  lemma {:induction false} ApplyUntouched(h: seq<Row>, g: seq<Row>, outs: seq<Outcome>, i: int)
    requires |outs| <= |g| && 0 <= i < |h|
    requires forall u :: 0 <= u < |outs| && !outs[u].Skipped? ==> !SameInstance(h[i], g[u])
    ensures ApplyOutcomes(h, g, outs)[i] == h[i]
  {
    if outs != [] {
      ApplyUntouched(h, g, outs[..|outs| - 1], i);
    }
  }

  /** A row of a walked group ends up with the number decided for that group,
      when no decided number exceeds its group's old one. */
  lemma {:induction false} ApplyGroup(h: seq<Row>, g: seq<Row>, outs: seq<Outcome>, i: int, t: int)
    requires |outs| <= |g| && Ascending(g) && 0 <= i < |h| && 0 <= t < |outs|
    requires SameInstance(h[i], g[t]) && !outs[t].Skipped?
    requires forall u :: 0 <= u < |outs| && !outs[u].Skipped? ==> outs[u].mi <= g[u].multiPriority
    ensures ApplyOutcomes(h, g, outs)[i] == h[i].(multiPriority := outs[t].mi)
  {
    var n := |outs| - 1;
    if t == n {
      forall u | 0 <= u < n && !outs[..n][u].Skipped? ensures !SameInstance(h[i], g[u]) {
        if SameInstance(h[i], g[u]) { AscendingSameOp(g, u, t); }
      }
      ApplyUntouched(h, g, outs[..n], i);
    } else {
      ApplyGroup(h, g, outs[..n], i, t);
      if !outs[n].Skipped? && g[n].operation == h[i].operation {
        AscendingSameOp(g, t, n);
      }
    }
  }

  // ----- the whole reconciliation -----

  /** The destination history after the append shift and the walk. */
  function Merged(h: seq<Row>, s: seq<Row>, oneInstance: Catalog): (r: seq<Row>)
    ensures |r| == |h|
  {
    var h1 := Shifted(h, s, oneInstance);
    var g := Groups(h1, s);
    ApplyOutcomes(h1, g, Run(g, s, oneInstance).outcomes)
  }

  /** The preconditions the walk needs of the destination history: instance
      numbers are not negative and operation names are not empty. */
  predicate PlainHistory(h: seq<Row>)
  {
    forall j :: 0 <= j < |h| ==> h[j].multiPriority >= 0 && h[j].operation != ""
  }

  lemma GroupsPlain(h: seq<Row>, s: seq<Row>, oneInstance: Catalog)
    requires PlainHistory(h)
    ensures var g := Groups(Shifted(h, s, oneInstance), s);
      Ascending(g) &&
      (forall x :: 0 <= x < |g| ==> g[x].operation != "" && HasOp(s, g[x].operation)) &&
      (forall x :: 0 <= x < |g| && !oneInstance(g[x].operation) ==>
        g[x].multiPriority >= NullAsZero(MaxMi(s, g[x].operation)) + 1)
  {
    var h1 := Shifted(h, s, oneInstance);
    var g := Groups(h1, s);
    GroupsAscending(h1, s);
    forall x | 0 <= x < |g|
      ensures g[x].operation != "" && HasOp(s, g[x].operation)
      ensures !oneInstance(g[x].operation) ==> g[x].multiPriority >= NullAsZero(MaxMi(s, g[x].operation)) + 1
    {
      GroupsLatest(h1, s, x);
      var j :| IsLatest(h1, j) && HasOp(s, h1[j].operation) && g[x] == h1[j];
    }
  }

  /** After the merge, a row of a staged multi-instance operation has only
      its number changed, to the number decided for its group `t`. */
  lemma MergedGroup(h: seq<Row>, s: seq<Row>, oneInstance: Catalog, i: int) returns (t: int)
    requires PlainHistory(h) && 0 <= i < |h|
    requires HasOp(s, h[i].operation) && !oneInstance(h[i].operation)
    ensures var g := Groups(Shifted(h, s, oneInstance), s); var outs := Run(g, s, oneInstance).outcomes;
      0 <= t < |g| && SameInstance(g[t], Shifted(h, s, oneInstance)[i]) && !outs[t].Skipped? &&
      Merged(h, s, oneInstance)[i] == h[i].(multiPriority := outs[t].mi)
  {
    var h1 := Shifted(h, s, oneInstance);
    var g := Groups(h1, s);
    var outs := Run(g, s, oneInstance).outcomes;
    GroupsPlain(h, s, oneInstance);
    RunSkips(g, s, oneInstance, |g|);
    assert g[..|g|] == g;
    GroupsCover(h1, s, i);
    t :| 0 <= t < |g| && SameInstance(g[t], h1[i]);
    forall u | 0 <= u < |outs| && !outs[u].Skipped? ensures outs[u].mi <= g[u].multiPriority {
      ValueBound(g, s, oneInstance, u);
    }
    ApplyGroup(h1, g, outs, i, t);
  }

  /** After the merge, a row of an operation that is not staged, or that is
      one-instance, is unchanged. */
  lemma MergedKeeps(h: seq<Row>, s: seq<Row>, oneInstance: Catalog, i: int)
    requires 0 <= i < |h|
    requires !HasOp(s, h[i].operation) || oneInstance(h[i].operation)
    ensures Merged(h, s, oneInstance)[i] == h[i]
  {
    var h1 := Shifted(h, s, oneInstance);
    var g := Groups(h1, s);
    var outs := Run(g, s, oneInstance).outcomes;
    RunSkips(g, s, oneInstance, |g|);
    assert g[..|g|] == g;
    ShiftedKeeps(h, s, oneInstance, i);
    forall u | 0 <= u < |g| ensures HasOp(s, g[u].operation) {
      GroupsLatest(h1, s, u);
    }
    ApplyUntouched(h1, g, outs, i);
  }

  /** Two different walked groups of one operation are given different numbers. */
  lemma GroupValuesDistinct(g: seq<Row>, s: seq<Row>, oneInstance: Catalog, t1: int, t2: int)
    requires 0 <= t1 < |g| && 0 <= t2 < |g| && t1 != t2 && Ascending(g) && g[t1].operation == g[t2].operation
    requires forall x :: 0 <= x < |g| ==> g[x].operation != ""
    requires forall k1, k2 ::
      (0 <= k1 < |s| && 0 <= k2 < |s| && k1 != k2 &&
       s[k1].operation == s[k2].operation && !oneInstance(s[k1].operation)) ==>
      s[k1].multiPriority != s[k2].multiPriority
    requires !Run(g, s, oneInstance).outcomes[t1].Skipped? && !Run(g, s, oneInstance).outcomes[t2].Skipped?
    ensures Run(g, s, oneInstance).outcomes[t1].mi != Run(g, s, oneInstance).outcomes[t2].mi
  {
    if t1 < t2 { ValuesDistinct(g, s, oneInstance, t1, t2); } else { ValuesDistinct(g, s, oneInstance, t2, t1); }
  }

  /** Two rows of one staged multi-instance operation end up with the same
      number exactly when they were the same instance before the merge:
      no two destination instances share a number afterwards. */
  lemma MergedDistinct(h: seq<Row>, s: seq<Row>, oneInstance: Catalog, i: int, j: int)
    requires PlainHistory(h) && 0 <= i < |h| && 0 <= j < |h|
    requires h[i].operation == h[j].operation && HasOp(s, h[i].operation) && !oneInstance(h[i].operation)
    requires forall k1, k2 ::
      (0 <= k1 < |s| && 0 <= k2 < |s| && k1 != k2 &&
       s[k1].operation == s[k2].operation && !oneInstance(s[k1].operation)) ==>
      s[k1].multiPriority != s[k2].multiPriority
    ensures Merged(h, s, oneInstance)[i].multiPriority == Merged(h, s, oneInstance)[j].multiPriority
      <==> h[i].multiPriority == h[j].multiPriority
  {
    var h1 := Shifted(h, s, oneInstance);
    var g := Groups(h1, s);
    GroupsPlain(h, s, oneInstance);
    var t1 := MergedGroup(h, s, oneInstance, i);
    var t2 := MergedGroup(h, s, oneInstance, j);
    ShiftedBy(h, s, oneInstance, i);
    ShiftedBy(h, s, oneInstance, j);
    if h[i].multiPriority == h[j].multiPriority {
      if t1 < t2 { AscendingSameOp(g, t1, t2); } else if t2 < t1 { AscendingSameOp(g, t2, t1); }
    } else {
      assert t1 != t2;
      GroupValuesDistinct(g, s, oneInstance, t1, t2);
    }
  }

  /** The staging table the walk leaves, with the rows it took marked `num = -1`. */
  function MergedStaging(h: seq<Row>, s: seq<Row>, oneInstance: Catalog): (r: seq<Row>)
    ensures |r| == |s|
  {
    Run(Groups(Shifted(h, s, oneInstance), s), s, oneInstance).staging
  }

  /** The history UPDATEs change nothing but `multi_priority`. */
  lemma {:induction false} ApplyKeeps(h: seq<Row>, g: seq<Row>, outs: seq<Outcome>)
    requires |outs| <= |g|
    ensures forall i :: 0 <= i < |h| ==> SameButPriority(ApplyOutcomes(h, g, outs)[i], h[i])
  {
    if outs != [] { ApplyKeeps(h, g, outs[..|outs| - 1]); }
  }

  /** The whole reconciliation changes nothing but `multi_priority`, on no
      matter what history. */
  lemma MergedKeepsFields(h: seq<Row>, s: seq<Row>, oneInstance: Catalog)
    ensures forall i :: 0 <= i < |h| ==> SameButPriority(Merged(h, s, oneInstance)[i], h[i])
  {
    var h1 := Shifted(h, s, oneInstance);
    var g := Groups(h1, s);
    ApplyKeeps(h1, g, Run(g, s, oneInstance).outcomes);
  }

  /** The walk leaves every staging row as it was, or marks it used. */
  lemma MergedStagingRows(h: seq<Row>, s: seq<Row>, oneInstance: Catalog)
    ensures forall k :: 0 <= k < |s| ==>
      MergedStaging(h, s, oneInstance)[k] == s[k] || MergedStaging(h, s, oneInstance)[k] == s[k].(num := -1)
  {
    var g := Groups(Shifted(h, s, oneInstance), s);
    RunStaging(g, s, oneInstance, |g|);
    assert g[..|g|] == g;
  }
}
