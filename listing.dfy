/** The read side of the history: the item list of `dt_history_get_items`
    and the text of `dt_history_get_items_as_string`.  The localised module
    name (`dt_iop_get_localized_name`) and the message translation (`_()`)
    are parameters. */
module Listing {
  import opened Order
  import opened Tables
  import opened Staging

  /** `dt_iop_get_localized_name`: operation name to display name. */
  type Localiser = string -> string
  /** `_()`: message to translated message. */
  type Translator = string -> string

  // ----- the two ordered queries -----

  /** `num IN (SELECT MAX(num) ... WHERE hst2.operation = main.history.operation
      GROUP BY multi_priority)`: the row's `num` is the last `num` of some
      instance of its operation. */
  predicate InLatestNums(h: seq<Row>, i: int)
  {
    0 <= i < |h| && exists j :: 0 <= j < |h| && IsLatest(h, j) && h[j].operation == h[i].operation && h[j].num == h[i].num
  }

  /** Sort keys `("", -num, position)` for `ORDER BY num DESC` of the first
      `n` rows; with `latestOnly`, only the rows `InLatestNums` selects. */
  function DescKeys(h: seq<Row>, latestOnly: bool, n: nat): (r: seq<Key>)
    requires n <= |h|
    ensures forall k :: k in r <==>
      exists i :: 0 <= i < n && (!latestOnly || InLatestNums(h, i)) && k == Key("", -h[i].num, i)
    ensures forall a, b :: 0 <= a < b < |r| ==> r[a].pos < r[b].pos
    ensures forall a :: 0 <= a < |r| ==>
      0 <= r[a].pos < n && (!latestOnly || InLatestNums(h, r[a].pos)) && r[a] == Key("", -h[r[a].pos].num, r[a].pos)
  {
    if n == 0 then []
    else if !latestOnly || InLatestNums(h, n - 1) then DescKeys(h, latestOnly, n - 1) + [Key("", -h[n - 1].num, n - 1)]
    else DescKeys(h, latestOnly, n - 1)
  }

  /** The rows of the query in `num DESC` order; rows of equal `num` in row order. */
  function ByNumDesc(h: seq<Row>, latestOnly: bool): seq<Row>
  {
    var ks := Sort(DescKeys(h, latestOnly, |h|));
    assert forall a :: 0 <= a < |ks| ==> ks[a] in DescKeys(h, latestOnly, |h|);
    RowsAt(h, ks)
  }

  lemma DescSorted(h: seq<Row>, latestOnly: bool)
    ensures Sorted(Sort(DescKeys(h, latestOnly, |h|)))
    ensures forall a :: 0 <= a < |Sort(DescKeys(h, latestOnly, |h|))| ==>
      Sort(DescKeys(h, latestOnly, |h|))[a] in DescKeys(h, latestOnly, |h|)
  {
    var dk := DescKeys(h, latestOnly, |h|);
    assert Distinct(dk);
    SortSorted(dk);
  }

  /** The rows come out with non-increasing `num` ... */
  lemma ByNumDescOrdered(h: seq<Row>, latestOnly: bool, p: int, q: int)
    requires 0 <= p < q < |ByNumDesc(h, latestOnly)|
    ensures ByNumDesc(h, latestOnly)[p].num >= ByNumDesc(h, latestOnly)[q].num
  {
    DescSorted(h, latestOnly);
    var ks := Sort(DescKeys(h, latestOnly, |h|));
    assert ks[p] in DescKeys(h, latestOnly, |h|) && ks[q] in DescKeys(h, latestOnly, |h|);
    assert KeyLt(ks[p], ks[q]);
  }

  /** ... each is a row the query selects ... */
  lemma ByNumDescRows(h: seq<Row>, latestOnly: bool, p: int)
    requires 0 <= p < |ByNumDesc(h, latestOnly)|
    ensures exists i :: 0 <= i < |h| && (!latestOnly || InLatestNums(h, i)) && ByNumDesc(h, latestOnly)[p] == h[i]
  {
    DescSorted(h, latestOnly);
    var ks := Sort(DescKeys(h, latestOnly, |h|));
    assert ks[p] in DescKeys(h, latestOnly, |h|);
  }

  /** ... and every row the query selects comes out once. */
  lemma ByNumDescCovers(h: seq<Row>, latestOnly: bool, i: int)
    requires 0 <= i < |h| && (!latestOnly || InLatestNums(h, i))
    ensures exists p :: 0 <= p < |ByNumDesc(h, latestOnly)| && ByNumDesc(h, latestOnly)[p] == h[i]
  {
    var dk := DescKeys(h, latestOnly, |h|);
    var ks := Sort(dk);
    var k := Key("", -h[i].num, i);
    assert k in dk;
    assert k in ks;
    var p :| 0 <= p < |ks| && ks[p] == k;
    assert ByNumDesc(h, latestOnly)[p] == h[i];
  }

  /** The full listing has every row. */
  lemma ByNumDescAll(h: seq<Row>)
    ensures |ByNumDesc(h, false)| == |h|
  {
    DescKeysCount(h, |h|);
  }

  lemma {:induction false} DescKeysCount(h: seq<Row>, n: nat)
    requires n <= |h|
    ensures |DescKeys(h, false, n)| == n
  {
    if n > 0 { DescKeysCount(h, n - 1); }
  }

  /** Every instance of the history shows up in the item query, through its
      last row: `dt_history_get_items` lists every module instance. */
  lemma LatestListed(h: seq<Row>, i: int)
    requires 0 <= i < |h|
    ensures exists p :: (0 <= p < |ByNumDesc(h, true)| &&
      SameInstance(ByNumDesc(h, true)[p], h[i]) && ByNumDesc(h, true)[p].num >= h[i].num)
  {
    LatestExists(h, i);
    var j :| IsLatest(h, j) && SameInstance(h[j], h[i]);
    assert InLatestNums(h, j);
    ByNumDescCovers(h, true, j);
  }

  // ----- the item labels of dt_history_get_items -----

  /** An entry of the list `dt_history_get_items` returns. */
  datatype HistoryItem = HistoryItem(num: int, name: string, op: string)

  function OnOff(tr: Translator, enabled: bool): string
  {
    if enabled then tr("on") else tr("off")
  }

  /** The instance's display name: the module name, followed by the
      multi_name unless it is `"0"`, the default instance. */
  function InstanceName(loc: Localiser, x: Row): (r: string)
    ensures loc(x.operation) <= r
    ensures r == loc(x.operation) <==> x.multiName == "0"
    ensures x.multiName != "0" ==> (|r| == |loc(x.operation)| + 1 + |x.multiName| &&
      r[|loc(x.operation)|] == ' ' && r[|loc(x.operation)| + 1..] == x.multiName)
  {
    if x.multiName == "0" then loc(x.operation) else loc(x.operation) + " " + x.multiName
  }

  /** The label of an item: the instance name, and in the full listing ` (on)`
      or ` (off)` after it. */
  function Label(loc: Localiser, tr: Translator, x: Row, enabledOnly: bool): string
  {
    if enabledOnly then InstanceName(loc, x) else InstanceName(loc, x) + " (" + OnOff(tr, x.enabled) + ")"
  }

  /** The label `dt_history_get_items` builds as written: in the full
      listing the `"0"` test has no `else`, so the second `g_snprintf`
      always overwrites the first and the multi_name is always printed. */
  function LabelAsWritten(loc: Localiser, tr: Translator, x: Row, enabledOnly: bool): string
  {
    if enabledOnly then InstanceName(loc, x)
    else loc(x.operation) + " " + x.multiName + " (" + OnOff(tr, x.enabled) + ")"
  }

  /** For the default instance (multi_name `"0"`) in the full listing the
      as-written label reads `name 0 (on)` where `name (on)` is meant; the
      two agree everywhere else. */
  lemma LabelAsWrittenDiffers(loc: Localiser, tr: Translator, x: Row)
    requires x.multiName == "0"
    ensures LabelAsWritten(loc, tr, x, false) == loc(x.operation) + " 0 (" + OnOff(tr, x.enabled) + ")"
    ensures Label(loc, tr, x, false) == loc(x.operation) + " (" + OnOff(tr, x.enabled) + ")"
    ensures LabelAsWritten(loc, tr, x, false) != Label(loc, tr, x, false)
  {
    assert |LabelAsWritten(loc, tr, x, false)| == |Label(loc, tr, x, false)| + 2;
  }

  lemma LabelAsWrittenAgrees(loc: Localiser, tr: Translator, x: Row, enabledOnly: bool)
    requires enabledOnly || x.multiName != "0"
    ensures LabelAsWritten(loc, tr, x, enabledOnly) == Label(loc, tr, x, enabledOnly)
  {
  }

  /** The items of the query rows `rows`, the disabled ones dropped when
      only enabled items are asked for. */
  function ItemsOf(loc: Localiser, tr: Translator, rows: seq<Row>, enabledOnly: bool): (r: seq<HistoryItem>)
    ensures |r| <= |rows|
  {
    if rows == [] then []
    else
      var x := rows[|rows| - 1];
      var init := ItemsOf(loc, tr, rows[..|rows| - 1], enabledOnly);
      if !enabledOnly || x.enabled then init + [HistoryItem(x.num, LabelAsWritten(loc, tr, x, enabledOnly), x.operation)]
      else init
  }

  /** `dt_history_get_items(imgid, enabled)` on the history `h`. */
  function Items(loc: Localiser, tr: Translator, h: seq<Row>, enabledOnly: bool): seq<HistoryItem>
  {
    ItemsOf(loc, tr, ByNumDesc(h, true), enabledOnly)
  }

  /** An item is made from a row that passes the filter ... */
  lemma {:induction false} ItemsOfFrom(loc: Localiser, tr: Translator, rows: seq<Row>, enabledOnly: bool, q: int)
    requires 0 <= q < |ItemsOf(loc, tr, rows, enabledOnly)|
    ensures exists p :: (0 <= p < |rows| && (!enabledOnly || rows[p].enabled) &&
      ItemsOf(loc, tr, rows, enabledOnly)[q] == HistoryItem(rows[p].num, LabelAsWritten(loc, tr, rows[p], enabledOnly), rows[p].operation))
  {
    var init := rows[..|rows| - 1];
    var x := rows[|rows| - 1];
    if q < |ItemsOf(loc, tr, init, enabledOnly)| {
      ItemsOfFrom(loc, tr, init, enabledOnly, q);
      var p :| 0 <= p < |init| && (!enabledOnly || init[p].enabled) &&
        ItemsOf(loc, tr, init, enabledOnly)[q] == HistoryItem(init[p].num, LabelAsWritten(loc, tr, init[p], enabledOnly), init[p].operation);
      assert init[p] == rows[p];
    } else {
      assert rows[|rows| - 1] == x;
    }
  }

  /** ... and every row that passes it gives an item. */
  lemma {:induction false} ItemsOfCovers(loc: Localiser, tr: Translator, rows: seq<Row>, enabledOnly: bool, p: int)
    requires 0 <= p < |rows| && (!enabledOnly || rows[p].enabled)
    ensures HistoryItem(rows[p].num, LabelAsWritten(loc, tr, rows[p], enabledOnly), rows[p].operation) in ItemsOf(loc, tr, rows, enabledOnly)
  {
    var init := rows[..|rows| - 1];
    if p < |rows| - 1 {
      ItemsOfCovers(loc, tr, init, enabledOnly, p);
      assert init[p] == rows[p];
    }
  }

  /** The full listing keeps every row, in order. */
  lemma {:induction false} ItemsOfAll(loc: Localiser, tr: Translator, rows: seq<Row>)
    ensures |ItemsOf(loc, tr, rows, false)| == |rows|
    ensures forall p :: 0 <= p < |rows| ==>
      ItemsOf(loc, tr, rows, false)[p] == HistoryItem(rows[p].num, LabelAsWritten(loc, tr, rows[p], false), rows[p].operation)
  {
    if rows != [] {
      var init := rows[..|rows| - 1];
      ItemsOfAll(loc, tr, init);
      assert forall p :: 0 <= p < |init| ==> init[p] == rows[p];
    }
  }

  /** In the full listing every default instance (multi_name `"0"`) is
      listed as `name 0 (on)` or `name 0 (off)`, not with the intended label. */
  lemma ItemsShowDefaultName(loc: Localiser, tr: Translator, h: seq<Row>, p: int)
    requires 0 <= p < |ByNumDesc(h, true)| && ByNumDesc(h, true)[p].multiName == "0"
    ensures var x := ByNumDesc(h, true)[p];
      p < |Items(loc, tr, h, false)| &&
      Items(loc, tr, h, false)[p].name == loc(x.operation) + " 0 (" + OnOff(tr, x.enabled) + ")" &&
      Items(loc, tr, h, false)[p].name != Label(loc, tr, x, false)
  {
    ItemsOfAll(loc, tr, ByNumDesc(h, true));
    LabelAsWrittenDiffers(loc, tr, ByNumDesc(h, true)[p]);
  }

  /** Filtering keeps the order of the query. */
  lemma {:induction false} ItemsOfOrdered(loc: Localiser, tr: Translator, rows: seq<Row>, enabledOnly: bool)
    requires forall p, q :: 0 <= p < q < |rows| ==> rows[p].num >= rows[q].num
    ensures forall a, b :: 0 <= a < b < |ItemsOf(loc, tr, rows, enabledOnly)| ==>
      ItemsOf(loc, tr, rows, enabledOnly)[a].num >= ItemsOf(loc, tr, rows, enabledOnly)[b].num
  {
    if rows != [] {
      var init := rows[..|rows| - 1];
      var x := rows[|rows| - 1];
      forall p, q | 0 <= p < q < |init| ensures init[p].num >= init[q].num {
        assert init[p] == rows[p] && init[q] == rows[q];
      }
      ItemsOfOrdered(loc, tr, init, enabledOnly);
      var r := ItemsOf(loc, tr, rows, enabledOnly);
      var ri := ItemsOf(loc, tr, init, enabledOnly);
      var item := HistoryItem(x.num, LabelAsWritten(loc, tr, x, enabledOnly), x.operation);
      assert r == if !enabledOnly || x.enabled then ri + [item] else ri;
      if !enabledOnly || x.enabled {
        forall a, b | 0 <= a < b < |r| ensures r[a].num >= r[b].num {
          assert r[a] == ri[a];
          if b < |r| - 1 {
            assert r[b] == ri[b];
          } else {
            ItemsOfFrom(loc, tr, init, enabledOnly, a);
            var p :| 0 <= p < |init| && (!enabledOnly || init[p].enabled) &&
              ri[a] == HistoryItem(init[p].num, LabelAsWritten(loc, tr, init[p], enabledOnly), init[p].operation);
            assert init[p] == rows[p];
            assert rows[p].num >= rows[|rows| - 1].num;
            assert r[b] == item;
          }
        }
      }
    }
  }

  /** `dt_history_get_items` lists its items with non-increasing `num`. */
  lemma ItemsOrdered(loc: Localiser, tr: Translator, h: seq<Row>, enabledOnly: bool)
    ensures forall a, b :: 0 <= a < b < |Items(loc, tr, h, enabledOnly)| ==>
      Items(loc, tr, h, enabledOnly)[a].num >= Items(loc, tr, h, enabledOnly)[b].num
  {
    var rows := ByNumDesc(h, true);
    forall p, q | 0 <= p < q < |rows| ensures rows[p].num >= rows[q].num {
      ByNumDescOrdered(h, true, p, q);
    }
    ItemsOfOrdered(loc, tr, rows, enabledOnly);
  }

  // ----- the text of dt_history_get_items_as_string -----

  /** The multi_name is shown unless it is empty, `" "` or `"0"`. */
  predicate ShowsName(mn: string)
  {
    mn != "" && mn != " " && mn != "0"
  }

  /** One line: module name, ` multi_name` when shown, and ` (on)` or ` (off)`. */
  function Line(loc: Localiser, tr: Translator, x: Row): string
  {
    loc(x.operation) + (if ShowsName(x.multiName) then " " + x.multiName else "") + " (" + OnOff(tr, x.enabled) + ")"
  }

  /** The full-listing label and the text line agree on every row whose
      multi_name is not empty or `" "`: both drop the default name `"0"`. */
  lemma LabelMatchesLine(loc: Localiser, tr: Translator, x: Row)
    requires x.multiName != "" && x.multiName != " "
    ensures Label(loc, tr, x, false) == Line(loc, tr, x)
  {
  }

  /** The lines of every history row, in `num DESC` order. */
  function Lines(loc: Localiser, tr: Translator, h: seq<Row>): (r: seq<string>)
    ensures |r| == |ByNumDesc(h, false)|
  {
    var rows := ByNumDesc(h, false);
    seq(|rows|, p requires 0 <= p < |rows| => Line(loc, tr, rows[p]))
  }

  /** The lines joined with `"\n"` between them (`dt_util_glist_to_str`). */
  function Join(xs: seq<string>): string
  {
    if xs == [] then ""
    else if |xs| == 1 then xs[0]
    else Join(xs[..|xs| - 1]) + "\n" + xs[|xs| - 1]
  }

  /** The index of the last `'\n'` before position `n`. */
  function LastNewline(s: string, n: nat): (r: Option<nat>)
    requires n <= |s|
    ensures r.Some? ==> r.value < n && s[r.value] == '\n' && forall j :: r.value < j < n ==> s[j] != '\n'
    ensures r.None? ==> forall j :: 0 <= j < n ==> s[j] != '\n'
  {
    if n == 0 then None
    else if s[n - 1] == '\n' then Some(n - 1)
    else LastNewline(s, n - 1)
  }

  /** Cuts a text at its `'\n'`s. */
  function Split(s: string): (r: seq<string>)
    ensures |r| > 0
    decreases |s|
  {
    match LastNewline(s, |s|)
    case None => [s]
    case Some(i) => Split(s[..i]) + [s[i + 1..]]
  }

  /** Joining lines without `'\n'` can be undone: the text holds the lines. */
  lemma {:induction false} SplitJoin(xs: seq<string>)
    requires |xs| > 0
    requires forall a :: 0 <= a < |xs| ==> '\n' !in xs[a]
    ensures Split(Join(xs)) == xs
  {
    if |xs| == 1 {
      var s := xs[0];
      NoNewline(s, |s|);
    } else {
      var init := xs[..|xs| - 1];
      var last := xs[|xs| - 1];
      var a := Join(init);
      var s := a + "\n" + last;
      assert Join(xs) == s;
      forall j | |a| < j < |s| ensures s[j] != '\n' {
        assert s[j] == last[j - |a| - 1];
        assert last[j - |a| - 1] in last;
      }
      assert s[|a|] == '\n';
      assert LastNewline(s, |s|) == Some(|a|) by {
        LastNewlineIs(s, |s|, |a|);
      }
      assert s[..|a|] == a;
      assert s[|a| + 1..] == last;
      SplitJoin(init);
      assert xs == init + [last];
    }
  }

  lemma {:induction false} NoNewline(s: string, n: nat)
    requires n <= |s| && '\n' !in s
    ensures LastNewline(s, n) == None
  {
    if n > 0 {
      assert s[n - 1] in s;
      NoNewline(s, n - 1);
    }
  }

  lemma {:induction false} LastNewlineIs(s: string, n: nat, i: nat)
    requires i < n <= |s| && s[i] == '\n'
    requires forall j :: i < j < n ==> s[j] != '\n'
    ensures LastNewline(s, n) == Some(i)
  {
    if n - 1 != i { LastNewlineIs(s, n - 1, i); }
  }

  /** `dt_history_get_items_as_string` on the history `h`. */
  function ItemsText(loc: Localiser, tr: Translator, h: seq<Row>): string
  {
    Join(Lines(loc, tr, h))
  }

  /** An empty history gives the empty text; otherwise, when no line holds
      a `'\n'` of its own, the text cuts back into one line per history
      row, newest first. */
  lemma ItemsTextLines(loc: Localiser, tr: Translator, h: seq<Row>)
    requires forall i :: 0 <= i < |h| ==> '\n' !in Line(loc, tr, h[i])
    ensures h == [] ==> ItemsText(loc, tr, h) == ""
    ensures h != [] ==> Split(ItemsText(loc, tr, h)) == Lines(loc, tr, h)
  {
    var xs := Lines(loc, tr, h);
    ByNumDescAll(h);
    if h != [] {
      forall a | 0 <= a < |xs| ensures '\n' !in xs[a] {
        ByNumDescRows(h, false, a);
      }
      SplitJoin(xs);
    }
  }
}
