/** The rows of the tables the history engine reads and writes.

    `main.history` holds one `Row` per recorded edit of an image;
    `memory.style_items`, the staging table, holds rows of the same shape
    whose `num` is the source image's `num`.  The columns the engine copies
    without looking at them (module version, operation and blend parameters,
    blend version) are kept together in `Payload`. */
module Tables {

  type ImageId = int

  datatype Option<T> = None | Some(value: T)

  datatype Payload = Payload(moduleVersion: int, opParams: seq<bv8>, blendopParams: seq<bv8>, blendopVersion: int)

  datatype Row = Row(num: int, operation: string, multiPriority: int, multiName: string, enabled: bool, payload: Payload)

  /** A row of `main.mask`, copied verbatim between images. */
  datatype Mask = Mask(formId: int, form: int, name: string, version: int, points: seq<bv8>, pointsCount: int, source: seq<bv8>)

  /** The history rows of one image; an image without rows has an empty history. */
  function Hist(m: map<ImageId, seq<Row>>, img: ImageId): seq<Row>
  {
    if img in m then m[img] else []
  }

  function MaskRows(m: map<ImageId, seq<Mask>>, img: ImageId): seq<Mask>
  {
    if img in m then m[img] else []
  }

  predicate HasOp(s: seq<Row>, op: string)
  {
    exists i :: 0 <= i < |s| && s[i].operation == op
  }

  /** `MAX(multi_priority) ... WHERE operation = op`: None when no row has that operation. */
  function MaxMi(s: seq<Row>, op: string): (m: Option<int>)
    ensures m.None? <==> !HasOp(s, op)
    ensures m.Some? ==> exists i :: 0 <= i < |s| && s[i].operation == op && s[i].multiPriority == m.value
    ensures m.Some? ==> forall i :: 0 <= i < |s| && s[i].operation == op ==> s[i].multiPriority <= m.value
  {
    if s == [] then None
    else
      var init := s[..|s| - 1];
      var last := s[|s| - 1];
      var rest := MaxMi(init, op);
      assert forall i :: 0 <= i < |init| ==> init[i] == s[i];
      if last.operation != op then rest
      else if rest.Some? && rest.value > last.multiPriority then rest
      else Some(last.multiPriority)
  }

  /** `IFNULL(MAX(num), -1)`. */
  function MaxNum(h: seq<Row>): (m: int)
    ensures h == [] ==> m == -1
    ensures h != [] ==> exists i :: 0 <= i < |h| && h[i].num == m
    ensures forall i :: 0 <= i < |h| ==> h[i].num <= m
  {
    if h == [] then -1
    else
      var init := h[..|h| - 1];
      assert forall i :: 0 <= i < |init| ==> init[i] == h[i];
      var rest := MaxNum(init);
      if init != [] && rest > h[|h| - 1].num then rest else h[|h| - 1].num
  }

  /** The stack positions of an image's history, in stored order, are 0, 1, 2, ... */
  predicate Consecutive(h: seq<Row>)
  {
    forall i :: 0 <= i < |h| ==> h[i].num == i
  }

  predicate DistinctNums(s: seq<Row>)
  {
    forall i, j :: 0 <= i < j < |s| ==> s[i].num != s[j].num
  }

  /** Only `multi_priority` may differ between the two rows. */
  predicate SameButPriority(a: Row, b: Row)
  {
    a == b.(multiPriority := a.multiPriority)
  }

  /** Row `i` is the one `MAX(num) ... GROUP BY operation, multi_priority`
      picks for its group: no row of the group has a greater `num`, and of
      equal `num` it is the first. */
  predicate IsLatest(h: seq<Row>, i: int)
  {
    0 <= i < |h| &&
    forall j :: 0 <= j < |h| && h[j].operation == h[i].operation && h[j].multiPriority == h[i].multiPriority ==>
      h[j].num < h[i].num || (h[j].num == h[i].num && i <= j)
  }

  predicate SameInstance(a: Row, b: Row)
  {
    a.operation == b.operation && a.multiPriority == b.multiPriority
  }

  /** Row `c` beats every row before position `k` of its group. */
  predicate BestBefore(h: seq<Row>, c: nat, k: nat)
    requires c < |h| && k <= |h|
  {
    forall j :: 0 <= j < k && SameInstance(h[j], h[c]) ==>
      h[j].num < h[c].num || (h[j].num == h[c].num && c <= j)
  }

  /** Scans the rows from `k` on for the one `MAX(num)` picks in the group of `c`. */
  function ScanLatest(h: seq<Row>, c: nat, k: nat): (r: nat)
    requires c < |h| && k <= |h| && BestBefore(h, c, k)
    ensures IsLatest(h, r) && SameInstance(h[r], h[c])
    decreases |h| - k
  {
    if k == |h| then c
    else if SameInstance(h[k], h[c]) && (h[k].num > h[c].num || (h[k].num == h[c].num && k < c)) then
      ScanLatest(h, k, k + 1)
    else
      ScanLatest(h, c, k + 1)
  }

  /** Every group has the row `MAX(num)` picks for it ... */
  lemma LatestExists(h: seq<Row>, i: nat)
    requires i < |h|
    ensures exists j :: IsLatest(h, j) && SameInstance(h[j], h[i])
  {
    var j := ScanLatest(h, i, 0);
  }

  /** ... and only one. */
  lemma LatestUnique(h: seq<Row>, i: int, j: int)
    requires IsLatest(h, i) && IsLatest(h, j) && SameInstance(h[i], h[j])
    ensures i == j
  {
  }

  function CountOp(s: seq<Row>, op: string): (n: nat)
    ensures n <= |s|
  {
    if s == [] then 0
    else CountOp(s[..|s| - 1], op) + (if s[|s| - 1].operation == op then 1 else 0)
  }
}
