/** The library database the history engine works on, and the engine's
    entry points as methods that change its tables step by step. */
module Library {
  import opened Order
  import opened Tables
  import opened Staging
  import opened Normalise
  import opened Append
  import opened Merge
  import opened Paste
  import opened Listing

  /** `SELECT history_end FROM main.images WHERE id = img`: None for NULL and
      for an image without a row. */
  function EndOf(m: map<ImageId, Option<int>>, img: ImageId): Option<int>
  {
    if img in m then m[img] else None
  }

  /** An entry of the clean-up's list (`_history_item_t`). */
  datatype MiItem = MiItem(num: int, op: string, mi: int, newMi: int)

  /** The key of each row of the clean-up's ordered query names its row. */
  lemma ByOpMiRows(s: seq<Row>)
    ensures forall a :: 0 <= a < |ByOpMi(s)| ==> 0 <= ByOpMi(s)[a].pos < |s| && ByOpMi(s)[a] == OpKey(s, ByOpMi(s)[a].pos)
  {
    var ks := OpKeys(s);
    forall a | 0 <= a < |Sort(ks)| ensures 0 <= Sort(ks)[a].pos < |s| && Sort(ks)[a] == OpKey(s, Sort(ks)[a].pos) {
      assert Sort(ks)[a] in ks;
    }
  }

  /** One more key of the ordered list adds at most its own arm. */
  lemma ArmsOfStep(s: seq<Row>, oneInstance: Catalog, keys: seq<Key>, p: int)
    requires PosIn(keys, s) && 0 <= p < |keys|
    ensures ArmsOf(s, oneInstance, keys, p + 1) == ArmsOf(s, oneInstance, keys, p) +
      (if s[keys[p].pos].multiPriority != Rank(s, keys[p].pos) then [Case(s[keys[p].pos].num, Rank(s, keys[p].pos))] else [])
  {
  }

  /** `UPDATE ... CASE num ...` with no arm is not run; it would change nothing. */
  lemma UpdateCaseNone(s: seq<Row>)
    ensures UpdateCase(s, []) == s
  {
    assert forall i :: 0 <= i < |s| ==> UpdateCase(s, [])[i] == s[i];
  }

  /** `SELECT imgid FROM main.selected_images WHERE imgid != src`. */
  function Others(sel: seq<ImageId>, src: ImageId): (r: seq<ImageId>)
    ensures forall x :: x in r <==> x in sel && x != src
  {
    if sel == [] then []
    else
      var init := sel[..|sel| - 1];
      var x := sel[|sel| - 1];
      assert forall a :: 0 <= a < |init| ==> init[a] == sel[a];
      if x == src then Others(init, src) else Others(init, src) + [x]
  }

  /** An image not in a list is in none of its prefixes ... */
  lemma NotInPrefix(xs: seq<ImageId>, x: ImageId, i: int)
    requires x !in xs && 0 <= i <= |xs|
    ensures x !in xs[..i]
  {
  }

  /** ... and in a list without repeats, no image is in the prefix before it. */
  lemma FreshInPrefix(xs: seq<ImageId>, i: int)
    requires forall a, b :: 0 <= a < b < |xs| ==> xs[a] != xs[b]
    requires 0 <= i < |xs|
    ensures xs[i] !in xs[..i]
  {
  }

  /** The selection has each image once, and so have the other images. */
  lemma {:induction false} OthersDistinct(sel: seq<ImageId>, src: ImageId)
    requires forall a, b :: 0 <= a < b < |sel| ==> sel[a] != sel[b]
    ensures forall c, d :: 0 <= c < d < |Others(sel, src)| ==> Others(sel, src)[c] != Others(sel, src)[d]
  {
    if sel != [] {
      var init := sel[..|sel| - 1];
      OthersDistinct(init, src);
      assert sel[|sel| - 1] !in init;
    }
  }

  /** The destination of a paste: its new history. */
  function PastedOn(hist: map<ImageId, seq<Row>>, ends: map<ImageId, Option<int>>, src: ImageId, dest: ImageId,
                    merge: bool, ops: seq<nat>, oneInstance: Catalog): Pasted
  {
    PasteOnto(Hist(hist, dest), Hist(hist, src), EndOf(ends, dest), merge, ops, oneInstance)
  }

  /** Writing a key twice leaves the second value. */
  lemma MapOverwrite<K, V>(m: map<K, V>, k: K, a: V, b: V)
    ensures m[k := a][k := b] == m[k := b]
  {
  }

  /** The paste in replace mode. */
  lemma PastedOnReplace(hist: map<ImageId, seq<Row>>, ends: map<ImageId, Option<int>>, src: ImageId, dest: ImageId,
                        ops: seq<nat>, oneInstance: Catalog, s: seq<Row>)
    requires s == StagedRows(Hist(hist, src), false, ops)
    ensures PastedOn(hist, ends, src, dest, false, ops, oneInstance).history == Written([], s, 0)
    ensures PastedOn(hist, ends, src, dest, false, ops, oneInstance).staging == s
  {
  }

  /** The mask rows of `dest` after a paste from `src`: the source's are
      appended, and in replace mode the destination's are dropped first. */
  function PastedMasks(m: map<ImageId, seq<Mask>>, src: ImageId, dest: ImageId, merge: bool): seq<Mask>
  {
    (if merge then MaskRows(m, dest) else []) + MaskRows(m, src)
  }

  /** A group whose multi_name matches an unused staged row of usable
      multi_priority takes that row over ... */
  lemma StepTook(grp: Row, st: Loop, oneInstance: Catalog, k: nat)
    requires !oneInstance(grp.operation)
    requires FirstMatch(st.staging, grp.operation, grp.multiName, 0) == Some(k) && st.staging[k].multiPriority >= 0
    ensures Step(grp, st, oneInstance) ==
      Loop(Consume(st.staging, st.staging[k].num), grp.operation, NextBase(grp, st), st.outcomes + [Took(k, st.staging[k].multiPriority)])
  {
  }

  /** ... any other group of a multi-instance operation is pushed to the next number ... */
  lemma StepPushed(grp: Row, st: Loop, oneInstance: Catalog)
    requires !oneInstance(grp.operation)
    requires match FirstMatch(st.staging, grp.operation, grp.multiName, 0)
      case None => true
      case Some(k) => st.staging[k].multiPriority < 0
    ensures Step(grp, st, oneInstance) ==
      Loop(st.staging, grp.operation, NextBase(grp, st) + 1, st.outcomes + [Pushed(NextBase(grp, st) + 1)])
  {
  }

  /** ... and a group of a one-instance operation changes nothing but the record. */
  lemma StepSkipped(grp: Row, st: Loop, oneInstance: Catalog)
    requires oneInstance(grp.operation)
    ensures Step(grp, st, oneInstance) == Loop(st.staging, st.prev, st.next, st.outcomes + [Skipped])
  {
  }

  /** The history updates of one more group. */
  lemma ApplyOutcomesSnoc(h: seq<Row>, g: seq<Row>, outs: seq<Outcome>, o: Outcome)
    requires |outs| < |g|
    ensures ApplyOutcomes(h, g, outs + [o]) ==
      if o.Skipped? then ApplyOutcomes(h, g, outs)
      else Relabel(ApplyOutcomes(h, g, outs), g[|outs|].operation, g[|outs|].multiPriority, o.mi)
  {
    assert (outs + [o])[..|outs|] == outs;
  }

  /** One more key is kept unless its operation is excluded. */
  lemma KeepMajorSnoc(ks: seq<Key>, excluded: string -> bool, k: int)
    requires 0 <= k < |ks|
    ensures KeepMajor(ks[..k + 1], excluded) ==
      KeepMajor(ks[..k], excluded) + (if excluded(ks[k].major) then [] else [ks[k]])
  {
    assert ks[..k + 1][..k] == ks[..k];
  }

  /** The list items for the keys `ks`: each staged row's `num`, operation
      and `multi_priority`, its new number not yet known. */
  function ItemsFor(s: seq<Row>, ks: seq<Key>): (r: seq<MiItem>)
    requires forall p :: 0 <= p < |ks| ==> 0 <= ks[p].pos < |s|
    ensures |r| == |ks|
  {
    if ks == [] then []
    else
      var x := ks[|ks| - 1];
      ItemsFor(s, ks[..|ks| - 1]) + [MiItem(s[x.pos].num, x.major, s[x.pos].multiPriority, -5)]
  }

  /** Each item carries the columns of its staging row. */
  lemma {:induction false} ItemsForRows(s: seq<Row>, ks: seq<Key>)
    requires forall p :: 0 <= p < |ks| ==> 0 <= ks[p].pos < |s|
    ensures forall p :: 0 <= p < |ks| ==>
      ItemsFor(s, ks)[p] == MiItem(s[ks[p].pos].num, ks[p].major, s[ks[p].pos].multiPriority, -5)
  {
    if ks != [] {
      var init := ks[..|ks| - 1];
      ItemsForRows(s, init);
      assert forall p :: 0 <= p < |init| ==> init[p] == ks[p];
    }
  }

  /** The first loop of `_dt_history_cleanup_multi_instance`, over the rows
      `q` of its query: the staged rows of multi-instance operations as a list. */
  method ListInstances(s: seq<Row>, q: seq<Key>, oneInstance: Catalog) returns (hitems: seq<MiItem>)
    requires forall a :: 0 <= a < |q| ==> 0 <= q[a].pos < |s|
    ensures forall p :: 0 <= p < |KeepMajor(q, oneInstance)| ==> 0 <= KeepMajor(q, oneInstance)[p].pos < |s|
    ensures hitems == ItemsFor(s, KeepMajor(q, oneInstance))
  {
    hitems := [];
    ghost var keys: seq<Key> := [];
    var k := 0;
    while k < |q|
      invariant 0 <= k <= |q|
      invariant keys == KeepMajor(q[..k], oneInstance)
      invariant forall p :: 0 <= p < |keys| ==> 0 <= keys[p].pos < |s|
      invariant hitems == ItemsFor(s, keys)
    {
      KeepMajorSnoc(q, oneInstance, k);
      if !oneInstance(q[k].major) {
        hitems := hitems + [MiItem(s[q[k].pos].num, q[k].major, s[q[k].pos].multiPriority, -5)];
        ghost var before := keys;
        keys := keys + [q[k]];
        assert keys[..|keys| - 1] == before;
      }
      k := k + 1;
    }
    assert q[..k] == q;
  }

  /** The number `c_mi` gives an item: how many items just before it have
      the same operation, the counter restarting whenever the operation changes. */
  function RunBefore(hitems: seq<MiItem>, a: nat): (n: nat)
    requires a < |hitems|
    ensures n <= a
  {
    if a == 0 then 0
    else if hitems[a - 1].op == hitems[a].op then RunBefore(hitems, a - 1) + 1
    else 0
  }

  /** The counter covers exactly the run of items of the same operation
      that ends at the item. */
  lemma {:induction false} RunBeforeRun(hitems: seq<MiItem>, a: nat)
    requires a < |hitems|
    ensures forall b :: a - RunBefore(hitems, a) <= b <= a ==> hitems[b].op == hitems[a].op
    ensures RunBefore(hitems, a) < a ==> hitems[a - RunBefore(hitems, a) - 1].op != hitems[a].op
  {
    if a > 0 && hitems[a - 1].op == hitems[a].op {
      RunBeforeRun(hitems, a - 1);
    }
  }

  /** The `WHEN num = .. THEN ..` arms for a numbered list: one per item
      whose number changes, in list order. */
  function CasesOf(items: seq<MiItem>): (r: seq<Case>)
    ensures |r| <= |items|
  {
    if items == [] then []
    else
      var n := |items| - 1;
      CasesOf(items[..n]) + (if items[n].mi != items[n].newMi then [Case(items[n].num, items[n].newMi)] else [])
  }

  /** An arm is written exactly for each item whose number changes. */
  lemma {:induction false} CasesOfMembers(items: seq<MiItem>)
    ensures forall c :: c in CasesOf(items) <==>
      exists a :: 0 <= a < |items| && items[a].mi != items[a].newMi && c == Case(items[a].num, items[a].newMi)
  {
    if items != [] {
      var n := |items| - 1;
      CasesOfMembers(items[..n]);
      assert forall a :: 0 <= a < n ==> items[..n][a] == items[a];
    }
  }

  /** One more item adds at most its own arm. */
  lemma CasesOfSnoc(items: seq<MiItem>, n: nat)
    requires n < |items|
    ensures CasesOf(items[..n + 1]) == CasesOf(items[..n]) +
      (if items[n].mi != items[n].newMi then [Case(items[n].num, items[n].newMi)] else [])
  {
    assert items[..n + 1][..n] == items[..n];
  }

  /** The second loop: every item receives its `c_mi`, and `nb_change`
      counts the items whose number changes. */
  method NumberInstances(hitems: seq<MiItem>) returns (items: seq<MiItem>, nbChange: int)
    ensures |items| == |hitems|
    ensures forall a :: 0 <= a < |items| ==> items[a] == hitems[a].(newMi := RunBefore(hitems, a))
    ensures nbChange == |CasesOf(items)|
  {
    items := hitems;
    var op := "";
    var cMi := 0;
    nbChange := 0;
    var p := 0;
    while p < |items|
      invariant 0 <= p <= |items| == |hitems|
      invariant p == 0 ==> op == "" && cMi == 0
      invariant p > 0 ==> op == hitems[p - 1].op && cMi == RunBefore(hitems, p - 1) + 1
      invariant forall a :: 0 <= a < p ==> items[a] == hitems[a].(newMi := RunBefore(hitems, a))
      invariant forall a :: p <= a < |items| ==> items[a] == hitems[a]
      invariant nbChange == |CasesOf(items[..p])|
    {
      var hi := items[p];
      if op != hi.op {
        op := hi.op;
        cMi := 0;
      }
      if hi.mi != cMi {
        nbChange := nbChange + 1;
      }
      ghost var before := items;
      items := items[p := hi.(newMi := cMi)];
      assert items[..p] == before[..p];
      CasesOfSnoc(items, p);
      cMi := cMi + 1;
      p := p + 1;
    }
    assert items[..p] == items;
  }

  /** The third loop, which writes the arms out. */
  method CaseArms(items: seq<MiItem>) returns (cases: seq<Case>)
    ensures cases == CasesOf(items)
  {
    cases := [];
    var p := 0;
    while p < |items|
      invariant 0 <= p <= |items|
      invariant cases == CasesOf(items[..p])
    {
      CasesOfSnoc(items, p);
      if items[p].mi != items[p].newMi {
        cases := cases + [Case(items[p].num, items[p].newMi)];
      }
      p := p + 1;
    }
    assert items[..p] == items;
  }

  /** On the list of `HItems`, ordered by operation, the counter is the
      number of earlier items of the same operation ... */
  lemma {:induction false} RunBeforeCounts(hitems: seq<MiItem>, keys: seq<Key>, a: nat)
    requires Sorted(keys) && |hitems| == |keys| && a < |keys|
    requires forall b :: 0 <= b < |keys| ==> hitems[b].op == keys[b].major
    ensures RunBefore(hitems, a) == CountMajor(keys[..a], keys[a].major)
  {
    if a > 0 {
      if hitems[a - 1].op == hitems[a].op {
        RunBeforeCounts(hitems, keys, a - 1);
        assert keys[..a][..a - 1] == keys[..a - 1];
      } else {
        BlockStart(keys, a);
      }
    }
  }

  /** ... which is the rank of its staging row. */
  lemma NumberIsRank(hitems: seq<MiItem>, s: seq<Row>, oneInstance: Catalog, keys: seq<Key>, a: nat)
    requires ListOf(keys, s, oneInstance) && |hitems| == |keys| && a < |keys|
    requires forall b :: 0 <= b < |keys| ==> hitems[b].op == keys[b].major
    ensures RunBefore(hitems, a) == Rank(s, keys[a].pos)
  {
    RunBeforeCounts(hitems, keys, a);
    ListRank(keys, s, oneInstance, a);
  }

  /** The arms written for the numbered list are the arms of the model's
      `CleanedUp`. */
  lemma {:induction false} CasesOfArms(items: seq<MiItem>, s: seq<Row>, oneInstance: Catalog, keys: seq<Key>, n: nat)
    requires PosIn(keys, s) && |items| == |keys| && n <= |keys|
    requires forall a :: 0 <= a < |keys| ==> (items[a].num == s[keys[a].pos].num &&
      items[a].mi == s[keys[a].pos].multiPriority && items[a].newMi == Rank(s, keys[a].pos))
    ensures CasesOf(items[..n]) == ArmsOf(s, oneInstance, keys, n)
  {
    if n > 0 {
      CasesOfArms(items, s, oneInstance, keys, n - 1);
      assert items[..n][..n - 1] == items[..n - 1];
      ArmsOfStep(s, oneInstance, keys, n - 1);
    }
  }

  /** The arms the three loops write are those of `CleanedUp`. */
  lemma CleanupArms(s: seq<Row>, oneInstance: Catalog, hitems: seq<MiItem>, items: seq<MiItem>)
    requires PosIn(HItems(s, oneInstance), s)
    requires hitems == ItemsFor(s, HItems(s, oneInstance))
    requires |items| == |hitems|
    requires forall a :: 0 <= a < |items| ==> items[a] == hitems[a].(newMi := RunBefore(hitems, a))
    ensures CasesOf(items) == Arms(s, oneInstance)
  {
    var keys := HItems(s, oneInstance);
    HItemsFacts(s, oneInstance);
    ItemsForRows(s, keys);
    forall a | 0 <= a < |keys| {
      NumberIsRank(hitems, s, oneInstance, keys, a);
    }
    assert items[..|items|] == items;
    CasesOfArms(items, s, oneInstance, keys, |keys|);
  }

  class Library {
    /** `main.history`: the rows of each image, in row order. */
    var history: map<ImageId, seq<Row>>
    /** `main.images.history_end`, for the images that have a row in `main.images`. */
    var historyEnd: map<ImageId, Option<int>>
    /** `main.mask`: the shapes of each image. */
    var masks: map<ImageId, seq<Mask>>
    /** `memory.style_items`, the staging table; staging row `k` has rowid `k + 1`. */
    var styleItems: seq<Row>
    /** `main.selected_images`, whose key is the image id. */
    var selected: seq<ImageId>

    ghost predicate Valid()
      reads this
    {
      forall a, b :: 0 <= a < b < |selected| ==> selected[a] != selected[b]
    }

    constructor (history: map<ImageId, seq<Row>>, historyEnd: map<ImageId, Option<int>>,
                 masks: map<ImageId, seq<Mask>>, selected: seq<ImageId>)
      requires forall a, b :: 0 <= a < b < |selected| ==> selected[a] != selected[b]
      ensures Valid()
      ensures this.history == history && this.historyEnd == historyEnd && this.masks == masks
      ensures this.styleItems == [] && this.selected == selected
    {
      this.history := history;
      this.historyEnd := historyEnd;
      this.masks := masks;
      this.styleItems := [];
      this.selected := selected;
    }

    /** `_dt_history_cleanup_multi_instance`: renumbers the staged instances
        of every multi-instance operation 0, 1, 2, ... */
    method CleanupMultiInstance(oneInstance: Catalog)
      modifies this`styleItems
      ensures styleItems == CleanedUp(old(styleItems), oneInstance)
    {
      var s := styleItems;
      ByOpMiRows(s);
      var hitems := ListInstances(s, ByOpMi(s), oneInstance);
      var items, nbChange := NumberInstances(hitems);
      CleanupArms(s, oneInstance, hitems, items);
      if nbChange == 0 {
        UpdateCaseNone(s);
        return;
      }
      var cases := CaseArms(items);
      styleItems := UpdateCase(s, cases);
    }

    /** `_history_rebuild_multi_priority_append`: shifts the destination's rows
        of every staged multi-instance operation above the staged instances. */
    method RebuildAppend(dest: ImageId, oneInstance: Catalog)
      modifies this`history
      ensures history == if dest in old(history)
        then old(history)[dest := Shifted(old(history)[dest], styleItems, oneInstance)] else old(history)
    {
      var ops := DistinctOps(styleItems);
      ghost var h0 := Hist(history, dest);
      ShiftedForEnds(h0, styleItems, oneInstance);
      var i := 0;
      while i < |ops|
        invariant 0 <= i <= |ops|
        invariant history == if dest in old(history)
          then old(history)[dest := ShiftedFor(h0, styleItems, oneInstance, ops[..i])] else old(history)
      {
        assert ops[..i + 1] == ops[..i] + [ops[i]];
        if oneInstance(ops[i]) {
          ShiftedForSkip(h0, styleItems, oneInstance, ops[..i], ops[i]);
        } else {
          ShiftedForStep(h0, styleItems, oneInstance, ops[..i], ops[i]);
          if dest in history {
            history := history[dest := ShiftOp(history[dest], styleItems, ops[i])];
          }
        }
        i := i + 1;
      }
      assert ops[..i] == ops;
    }

    /** `dt_history_rebuild_multi_priority_merge`: the append shift, then the
        walk over the destination's instances of the staged operations. */
    method RebuildMerge(dest: ImageId, oneInstance: Catalog)
      modifies this`history, this`styleItems
      ensures styleItems == MergedStaging(Hist(old(history), dest), old(styleItems), oneInstance)
      ensures history == if dest in old(history)
        then old(history)[dest := Merged(old(history)[dest], old(styleItems), oneInstance)] else old(history)
    {
      var s0 := styleItems;
      ghost var h0 := Hist(history, dest);
      RebuildAppend(dest, oneInstance);
      var h1 := Hist(history, dest);
      assert h1 == Shifted(h0, s0, oneInstance);
      var g := Groups(h1, s0);
      ReconcileGroups(dest, g, oneInstance);
    }

    /** The walk over the rows `g` of the groups query (already read when the
        walk starts): each group of a multi-instance operation takes over
        the staged row of the same `multi_name`, or gets the next free
        number, and the destination's rows of the group are renumbered. */
    method ReconcileGroups(dest: ImageId, g: seq<Row>, oneInstance: Catalog)
      modifies this`history, this`styleItems
      ensures styleItems == Run(g, old(styleItems), oneInstance).staging
      ensures history == if dest in old(history)
        then old(history)[dest := ApplyOutcomes(old(history)[dest], g, Run(g, old(styleItems), oneInstance).outcomes)]
        else old(history)
    {
      var s0 := styleItems;
      var h1 := Hist(history, dest);
      var prev := "";
      var next := -1;
      ghost var outs: seq<Outcome> := [];
      var t := 0;
      while t < |g|
        invariant 0 <= t <= |g|
        invariant Loop(styleItems, prev, next, outs) == Run(g[..t], s0, oneInstance)
        invariant history == if dest in old(history)
          then old(history)[dest := ApplyOutcomes(h1, g, outs)] else old(history)
      {
        ghost var st := Loop(styleItems, prev, next, outs);
        RunPrefix(g, s0, oneInstance, t);
        ApplyOutcomesSnoc(h1, g, outs, Decide(g[t], st, oneInstance));
        prev, next, outs := ReconcileGroup(dest, g[t], prev, next, outs, oneInstance);
        t := t + 1;
      }
      assert g[..t] == g;
    }

    /** One pass of the walk, for the group `grp`. */
    method ReconcileGroup(dest: ImageId, grp: Row, prev: string, next: int, ghost outs: seq<Outcome>, oneInstance: Catalog)
        returns (prev': string, next': int, ghost outs': seq<Outcome>)
      modifies this`history, this`styleItems
      ensures Loop(styleItems, prev', next', outs') == Step(grp, Loop(old(styleItems), prev, next, outs), oneInstance)
      ensures history == if dest in old(history) && !oneInstance(grp.operation)
        then old(history)[dest := Relabel(old(history)[dest], grp.operation, grp.multiPriority,
                                          Decide(grp, Loop(old(styleItems), prev, next, outs), oneInstance).mi)]
        else old(history)
    {
      ghost var st := Loop(styleItems, prev, next, outs);
      prev', next' := prev, next;
      if oneInstance(grp.operation) {
        StepSkipped(grp, st, oneInstance);
        outs' := outs + [Skipped];
        return;
      }
      if grp.operation != prev {
        prev' := grp.operation;
        next' := NullAsZero(MaxMi(styleItems, grp.operation));
      }
      assert next' == NextBase(grp, st);
      var mpNew := -1;
      var numNew := -1;
      var m := FirstMatch(styleItems, grp.operation, grp.multiName, 0);
      if m.Some? {
        numNew := styleItems[m.value].num;
        mpNew := styleItems[m.value].multiPriority;
      }
      if mpNew >= 0 {
        StepTook(grp, st, oneInstance, m.value);
        if dest in history {
          history := history[dest := Relabel(history[dest], grp.operation, grp.multiPriority, mpNew)];
        }
        styleItems := Consume(styleItems, numNew);
        outs' := outs + [Took(m.value, mpNew)];
      } else {
        StepPushed(grp, st, oneInstance);
        next' := next' + 1;
        if dest in history {
          history := history[dest := Relabel(history[dest], grp.operation, grp.multiPriority, next')];
        }
        outs' := outs + [Pushed(next')];
      }
    }

    /** `dt_history_copy_and_paste_on_image`: pastes the history of `src`
        onto `dest`, appended (`merge`) or replacing it, all rows or those
        whose `num` is listed in `ops`; returns 1 and changes nothing when
        the images are the same or no image was copied. */
    method CopyAndPasteOnImage(src: ImageId, dest: ImageId, merge: bool, ops: seq<nat>, oneInstance: Catalog)
      returns (res: int)
      modifies this`history, this`historyEnd, this`masks, this`styleItems
      ensures src == dest || src == -1 ==>
        res == 1 && history == old(history) && historyEnd == old(historyEnd) &&
        masks == old(masks) && styleItems == old(styleItems)
      ensures src != dest && src != -1 ==>
        res == 0 &&
        history == old(history)[dest := PastedOn(old(history), old(historyEnd), src, dest, merge, ops, oneInstance).history] &&
        styleItems == PastedOn(old(history), old(historyEnd), src, dest, merge, ops, oneInstance).staging &&
        masks == old(masks)[dest := PastedMasks(old(masks), src, dest, merge)] &&
        historyEnd == if dest in old(historyEnd)
          then old(historyEnd)[dest := HistoryEnd(PastedOn(old(history), old(historyEnd), src, dest, merge, ops, oneInstance).history)]
          else old(historyEnd)
    {
      if src == dest {
        return 1;
      }
      if src == -1 {
        return 1;
      }
      ghost var hist0, ends0, masks0 := history, historyEnd, masks;
      var srcRows := Hist(history, src);
      var h := Hist(history, dest);
      var offs := 0;
      if merge {
        h := Trim(h, EndOf(historyEnd, dest));
        offs := MaxNum(h) + 1;
      } else {
        h := [];
      }
      history := history[dest := h];
      styleItems := StagedRows(srcRows, merge, ops);
      if merge {
        CleanupMultiInstance(oneInstance);
        ghost var s1 := styleItems;
        RebuildMerge(dest, oneInstance);
        MapOverwrite(hist0, dest, h, Merged(h, s1, oneInstance));
        assert history == hist0[dest := Merged(h, s1, oneInstance)];
      } else {
        PastedOnReplace(hist0, ends0, src, dest, ops, oneInstance, styleItems);
        assert history == hist0[dest := []];
      }
      var written := Written(history[dest], styleItems, offs);
      assert written == PastedOn(hist0, ends0, src, dest, merge, ops, oneInstance).history;
      MapOverwrite(hist0, dest, history[dest], written);
      history := history[dest := written];
      masks := masks[dest := PastedMasks(masks, src, dest, merge)];
      if dest in historyEnd {
        historyEnd := historyEnd[dest := HistoryEnd(history[dest])];
      }
      res := 0;
    }

    /** `dt_history_delete_on_image`: drops the image's history and masks and
        sets its `history_end` to 0. */
    method DeleteOnImage(img: ImageId)
      modifies this`history, this`historyEnd, this`masks
      ensures history == old(history) - {img}
      ensures historyEnd == if img in old(historyEnd) then old(historyEnd)[img := Some(0)] else old(historyEnd)
      ensures masks == old(masks) - {img}
    {
      history := history - {img};
      if img in historyEnd {
        historyEnd := historyEnd[img := Some(0)];
      }
      masks := masks - {img};
    }

    /** `dt_history_delete_on_selection`: deletes the history of every selected image. */
    method DeleteOnSelection()
      modifies this`history, this`historyEnd, this`masks
      ensures history == Without(old(history), selected)
      ensures historyEnd == ZeroEnds(old(historyEnd), selected)
      ensures masks == Without(old(masks), selected)
    {
      var i := 0;
      while i < |selected|
        invariant 0 <= i <= |selected|
        invariant history == Without(old(history), selected[..i])
        invariant historyEnd == ZeroEnds(old(historyEnd), selected[..i])
        invariant masks == Without(old(masks), selected[..i])
      {
        assert selected[..i + 1] == selected[..i] + [selected[i]];
        DeleteOnImage(selected[i]);
        i := i + 1;
      }
      assert selected[..i] == selected;
    }

    /** `dt_history_copy_and_paste_on_selection`: pastes the history of `src`
        onto every other selected image; returns 1 when `src` is negative or
        no other image is selected. */
    method CopyAndPasteOnSelection(src: ImageId, merge: bool, ops: seq<nat>, oneInstance: Catalog)
      returns (res: int)
      requires Valid()
      modifies this`history, this`historyEnd, this`masks, this`styleItems
      ensures res == 1 <==> src < 0 || Others(selected, src) == []
      ensures res == 0 || res == 1
      ensures history == PastedHistories(old(history), old(historyEnd), src, if src < 0 then [] else Others(selected, src), merge, ops, oneInstance)
      ensures masks == PastedMaskMaps(old(masks), src, if src < 0 then [] else Others(selected, src), merge)
      ensures historyEnd == PastedEnds(old(history), old(historyEnd), src, if src < 0 then [] else Others(selected, src), merge, ops, oneInstance)
    {
      if src < 0 {
        return 1;
      }
      var dests := Others(selected, src);
      OthersDistinct(selected, src);
      if dests == [] {
        return 1;
      }
      res := 0;
      ghost var h0 := history;
      ghost var e0 := historyEnd;
      ghost var m0 := masks;
      var i := 0;
      while i < |dests|
        invariant 0 <= i <= |dests|
        invariant history == PastedHistories(h0, e0, src, dests[..i], merge, ops, oneInstance)
        invariant masks == PastedMaskMaps(m0, src, dests[..i], merge)
        invariant historyEnd == PastedEnds(h0, e0, src, dests[..i], merge, ops, oneInstance)
      {
        var d := dests[i];
        assert src !in dests;
        NotInPrefix(dests, src, i);
        FreshInPrefix(dests, i);
        PasteOnNext(src, d, merge, ops, oneInstance, h0, e0, m0, dests[..i]);
        assert dests[..i + 1] == dests[..i] + [d];
        i := i + 1;
      }
      assert dests[..i] == dests;
    }

    /** One pass of the loop over the selection: the paste onto `d`, which
        reads the tables as they were before the pastes `done`. */
    method PasteOnNext(src: ImageId, d: ImageId, merge: bool, ops: seq<nat>, oneInstance: Catalog,
                       ghost h0: map<ImageId, seq<Row>>, ghost e0: map<ImageId, Option<int>>,
                       ghost m0: map<ImageId, seq<Mask>>, ghost done: seq<ImageId>)
      requires d !in done && src !in done && d != src && src != -1
      requires history == PastedHistories(h0, e0, src, done, merge, ops, oneInstance)
      requires historyEnd == PastedEnds(h0, e0, src, done, merge, ops, oneInstance)
      requires masks == PastedMaskMaps(m0, src, done, merge)
      modifies this`history, this`historyEnd, this`masks, this`styleItems
      ensures history == PastedHistories(h0, e0, src, done + [d], merge, ops, oneInstance)
      ensures historyEnd == PastedEnds(h0, e0, src, done + [d], merge, ops, oneInstance)
      ensures masks == PastedMaskMaps(m0, src, done + [d], merge)
    {
      PastedStepHistory(h0, e0, history, historyEnd, src, done, d, merge, ops, oneInstance);
      PastedStepEnds(h0, e0, historyEnd, PastedOn(h0, e0, src, d, merge, ops, oneInstance).history,
                     src, done, d, merge, ops, oneInstance);
      PastedStepMasks(m0, masks, src, done, d, merge);
      var pasted := CopyAndPasteOnImage(src, d, merge, ops, oneInstance);
    }

    /** `dt_history_get_items`: the listed items of the image's history. */
    method GetItems(img: ImageId, enabledOnly: bool, loc: Localiser, tr: Translator) returns (items: seq<HistoryItem>)
      ensures items == Items(loc, tr, Hist(history, img), enabledOnly)
    {
      var rows := ByNumDesc(Hist(history, img), true);
      items := [];
      var k := 0;
      while k < |rows|
        invariant 0 <= k <= |rows|
        invariant items == ItemsOf(loc, tr, rows[..k], enabledOnly)
      {
        assert rows[..k + 1][..k] == rows[..k];
        var x := rows[k];
        if !enabledOnly || x.enabled {
          items := items + [HistoryItem(x.num, LabelAsWritten(loc, tr, x, enabledOnly), x.operation)];
        }
        k := k + 1;
      }
      assert rows[..k] == rows;
    }

    /** `dt_history_get_items_as_string`: one line per history row, newest first. */
    method GetItemsAsString(img: ImageId, loc: Localiser, tr: Translator) returns (text: string)
      ensures text == ItemsText(loc, tr, Hist(history, img))
    {
      var rows := ByNumDesc(Hist(history, img), false);
      var lines: seq<string> := [];
      var k := 0;
      while k < |rows|
        invariant 0 <= k <= |rows|
        invariant |lines| == k
        invariant forall a :: 0 <= a < k ==> lines[a] == Line(loc, tr, rows[a])
      {
        lines := lines + [Line(loc, tr, rows[k])];
        k := k + 1;
      }
      assert lines == Lines(loc, tr, Hist(history, img));
      text := Join(lines);
    }
  }

  // ----- the tables after a selection-wide operation -----

  /** The map without the entries of the listed images. */
  function Without<V>(m: map<ImageId, V>, ids: seq<ImageId>): (r: map<ImageId, V>)
    ensures forall k :: k in r <==> k in m && k !in ids
  {
    map k | k in m && k !in ids :: m[k]
  }

  /** `history_end` set to 0 for the listed images that have a row. */
  function ZeroEnds(m: map<ImageId, Option<int>>, ids: seq<ImageId>): (r: map<ImageId, Option<int>>)
    ensures r.Keys == m.Keys
  {
    map k | k in m :: if k in ids then Some(0) else m[k]
  }

  /** The map `m` with the entry of each image of `dests` replaced by `f` of it. */
  function Overlay<V>(m: map<ImageId, V>, dests: seq<ImageId>, f: ImageId -> V): map<ImageId, V>
  {
    map k | k in m.Keys + (set d | d in dests) :: if k in dests then f(k) else m[k]
  }

  /** The same, for the images that already have an entry. */
  function OverlayIn<V>(m: map<ImageId, V>, dests: seq<ImageId>, f: ImageId -> V): map<ImageId, V>
  {
    map k | k in m :: if k in dests then f(k) else m[k]
  }

  lemma OverlayStep<V>(m: map<ImageId, V>, dests: seq<ImageId>, f: ImageId -> V, d: ImageId)
    ensures Overlay(m, dests, f)[d := f(d)] == Overlay(m, dests + [d], f)
  {
  }

  lemma OverlayInStep<V>(m: map<ImageId, V>, dests: seq<ImageId>, f: ImageId -> V, d: ImageId)
    ensures (if d in OverlayIn(m, dests, f) then OverlayIn(m, dests, f)[d := f(d)] else OverlayIn(m, dests, f)) ==
      OverlayIn(m, dests + [d], f)
  {
  }

  /** An image not yet pasted onto keeps its entry. */
  lemma OverlayKeeps<V>(m: map<ImageId, V>, dests: seq<ImageId>, f: ImageId -> V, k: ImageId)
    requires k !in dests
    ensures (k in Overlay(m, dests, f) <==> k in m) && (k in m ==> Overlay(m, dests, f)[k] == m[k])
    ensures (k in OverlayIn(m, dests, f) <==> k in m) && (k in m ==> OverlayIn(m, dests, f)[k] == m[k])
  {
  }

  /** The histories after pasting `src` onto each image of `dests` in turn. */
  function PastedHistories(hist: map<ImageId, seq<Row>>, ends: map<ImageId, Option<int>>, src: ImageId,
                           dests: seq<ImageId>, merge: bool, ops: seq<nat>, oneInstance: Catalog): map<ImageId, seq<Row>>
  {
    Overlay(hist, dests, k => PastedOn(hist, ends, src, k, merge, ops, oneInstance).history)
  }

  /** The mask tables after the same pastes. */
  function PastedMaskMaps(m: map<ImageId, seq<Mask>>, src: ImageId, dests: seq<ImageId>, merge: bool): map<ImageId, seq<Mask>>
  {
    Overlay(m, dests, k => PastedMasks(m, src, k, merge))
  }

  /** The `history_end` of the images after the same pastes. */
  function PastedEnds(hist: map<ImageId, seq<Row>>, ends: map<ImageId, Option<int>>, src: ImageId,
                      dests: seq<ImageId>, merge: bool, ops: seq<nat>, oneInstance: Catalog): map<ImageId, Option<int>>
  {
    OverlayIn(ends, dests, k => HistoryEnd(PastedOn(hist, ends, src, k, merge, ops, oneInstance).history))
  }

  /** A paste reads only the histories of the two images and the `history_end` of the destination. */
  lemma PastedOnReads(h: map<ImageId, seq<Row>>, e: map<ImageId, Option<int>>,
                      h': map<ImageId, seq<Row>>, e': map<ImageId, Option<int>>,
                      src: ImageId, d: ImageId, merge: bool, ops: seq<nat>, oneInstance: Catalog)
    requires Hist(h, d) == Hist(h', d) && Hist(h, src) == Hist(h', src) && EndOf(e, d) == EndOf(e', d)
    ensures PastedOn(h, e, src, d, merge, ops, oneInstance) == PastedOn(h', e', src, d, merge, ops, oneInstance)
  {
  }

  /** Pasting onto one more image `d`, not pasted onto before and not the
      source, reads the histories as they were before any paste ... */
  lemma PastedStepHistory(h0: map<ImageId, seq<Row>>, e0: map<ImageId, Option<int>>,
                          h: map<ImageId, seq<Row>>, e: map<ImageId, Option<int>>,
                          src: ImageId, done: seq<ImageId>, d: ImageId, merge: bool, ops: seq<nat>, oneInstance: Catalog)
    requires d !in done && src !in done
    requires h == PastedHistories(h0, e0, src, done, merge, ops, oneInstance)
    requires e == PastedEnds(h0, e0, src, done, merge, ops, oneInstance)
    ensures PastedOn(h, e, src, d, merge, ops, oneInstance) == PastedOn(h0, e0, src, d, merge, ops, oneInstance)
    ensures h[d := PastedOn(h, e, src, d, merge, ops, oneInstance).history] ==
      PastedHistories(h0, e0, src, done + [d], merge, ops, oneInstance)
  {
    var fh := k => PastedOn(h0, e0, src, k, merge, ops, oneInstance).history;
    var fe := k => HistoryEnd(PastedOn(h0, e0, src, k, merge, ops, oneInstance).history);
    OverlayKeeps(h0, done, fh, d);
    OverlayKeeps(h0, done, fh, src);
    OverlayKeeps(e0, done, fe, d);
    PastedOnReads(h, e, h0, e0, src, d, merge, ops, oneInstance);
    OverlayStep(h0, done, fh, d);
  }

  /** ... and so the `history_end` it writes is the one of a paste onto the
      tables before any paste ... */
  lemma PastedStepEnds(h0: map<ImageId, seq<Row>>, e0: map<ImageId, Option<int>>,
                       e: map<ImageId, Option<int>>, p: seq<Row>,
                       src: ImageId, done: seq<ImageId>, d: ImageId, merge: bool, ops: seq<nat>, oneInstance: Catalog)
    requires e == PastedEnds(h0, e0, src, done, merge, ops, oneInstance)
    requires p == PastedOn(h0, e0, src, d, merge, ops, oneInstance).history
    ensures (if d in e then e[d := HistoryEnd(p)] else e) == PastedEnds(h0, e0, src, done + [d], merge, ops, oneInstance)
  {
    var fe := k => HistoryEnd(PastedOn(h0, e0, src, k, merge, ops, oneInstance).history);
    OverlayInStep(e0, done, fe, d);
  }

  /** ... and the masks it copies are those of the tables before any paste. */
  lemma PastedStepMasks(m0: map<ImageId, seq<Mask>>, m: map<ImageId, seq<Mask>>,
                        src: ImageId, done: seq<ImageId>, d: ImageId, merge: bool)
    requires d !in done && src !in done
    requires m == PastedMaskMaps(m0, src, done, merge)
    ensures m[d := PastedMasks(m, src, d, merge)] == PastedMaskMaps(m0, src, done + [d], merge)
  {
    var fm := k => PastedMasks(m0, src, k, merge);
    OverlayKeeps(m0, done, fm, d);
    OverlayKeeps(m0, done, fm, src);
    assert MaskRows(m, d) == MaskRows(m0, d) && MaskRows(m, src) == MaskRows(m0, src);
    OverlayStep(m0, done, fm, d);
  }
}
