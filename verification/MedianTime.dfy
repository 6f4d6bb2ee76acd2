/** The median time of the last blocks of a branch. */
module MedianTime {
  import opened ChainTree

  const MEDIAN_TIME_BLOCKS := 11

  /** The timestamps of `node` and its ancestors, newest first, at most `k` of them. */
  function Window(node: BlockNode?, k: nat): seq<int> {
    if k == 0 || node == null then [] else [node.fields.timestamp] + Window(node.parent, k - 1)
  }

  predicate Ascending(s: seq<int>) {
    forall i, j :: 0 <= i < j < |s| ==> s[i] <= s[j]
  }

  function Insert(x: int, s: seq<int>): seq<int> {
    if s == [] || x <= s[0] then [x] + s else [s[0]] + Insert(x, s[1..])
  }

  /** What the library's sort returns. */
  function Sort(s: seq<int>): seq<int> {
    if s == [] then [] else Insert(s[0], Sort(s[1..]))
  }

  /** How many elements lie below `t`. */
  function Below(s: seq<int>, t: int): nat {
    if s == [] then 0 else (if s[0] < t then 1 else 0) + Below(s[1..], t)
  }

  /** `m` has at most half of the elements below it and more than half at or below it. */
  ghost predicate IsMedian(s: seq<int>, m: int) {
    2 * Below(s, m) <= |s| < 2 * Below(s, m + 1)
  }

  /** The position that is taken for the middle. */
  function Middle(s: seq<int>): (k: nat)
    ensures 2 * k <= |s| < 2 * (k + 1) && (s != [] ==> k < |s|)
  {
    |s| / 2
  }

  lemma {:induction false} InsertSorts(x: int, s: seq<int>, t: int)
    requires Ascending(s)
    ensures Ascending(Insert(x, s)) && |Insert(x, s)| == |s| + 1
    ensures s != [] ==> Insert(x, s)[0] == if x <= s[0] then x else s[0]
    ensures Below(Insert(x, s), t) == Below(s, t) + if x < t then 1 else 0
  {
    if s == [] || x <= s[0] {
      assert ([x] + s)[1..] == s;
    } else {
      InsertSorts(x, s[1..], t);
      assert Insert(x, s)[1..] == Insert(x, s[1..]);
    }
  }

  lemma {:induction false} SortSorts(s: seq<int>, t: int)
    ensures Ascending(Sort(s)) && |Sort(s)| == |s| && Below(Sort(s), t) == Below(s, t)
  {
    if s != [] {
      SortSorts(s[1..], t);
      InsertSorts(s[0], Sort(s[1..]), t);
    }
  }

  /** In a sorted sequence the element at `k` tells how many lie below `t`, and the other way round. */
  lemma {:induction false} Rank(s: seq<int>, k: nat, t: int)
    requires Ascending(s) && k < |s|
    ensures s[k] >= t <==> Below(s, t) <= k
  {
    if |s| > 1 {
      if k > 0 { Rank(s[1..], k - 1, t); } else { Rank(s[1..], 0, t); }
    }
  }

  lemma MiddleIsMedian(s: seq<int>)
    requires s != []
    ensures |Sort(s)| == |s| && IsMedian(s, Sort(s)[Middle(s)])
  {
    hide Sort, Below, Middle;
    RankSorted(s, Middle(s));
  }

  lemma RankSorted(s: seq<int>, k: nat)
    requires k < |s|
    ensures |Sort(s)| == |s| && Below(s, Sort(s)[k]) <= k < Below(s, Sort(s)[k] + 1)
  {
    hide Sort, Below, Ascending;
    SortSorts(s, 0);
    var m := Sort(s)[k];
    SortSorts(s, m);
    SortSorts(s, m + 1);
    Rank(Sort(s), k, m);
    Rank(Sort(s), k, m + 1);
  }

  lemma {:induction false} BelowMonotone(s: seq<int>, t: int, u: int)
    requires t <= u
    ensures Below(s, t) <= Below(s, u)
  {
    if s != [] { BelowMonotone(s[1..], t, u); }
  }

  /** There is only one median. */
  lemma MedianUnique(s: seq<int>, m1: int, m2: int)
    requires IsMedian(s, m1) && IsMedian(s, m2)
    ensures m1 == m2
  {
    if m1 < m2 { BelowMonotone(s, m1 + 1, m2); }
    if m2 < m1 { BelowMonotone(s, m2 + 1, m1); }
  }

  lemma {:induction false} WindowSize(node: BlockNode, k: nat)
    requires Linked(node)
    ensures |Window(node, k)| == if node.height < k then node.height + 1 else k
    decreases k
  {
    if k > 0 && node.parent != null { WindowSize(node.parent, k - 1); }
  }

  lemma WindowStep(node: BlockNode, k: nat)
    requires k > 0
    ensures Window(node, k) == [node.fields.timestamp] + Window(node.parent, k - 1)
  {
  }

  lemma WindowEnd(node: BlockNode?, k: nat)
    requires k == 0 || node == null
    ensures Window(node, k) == []
  {
  }

  lemma NotBelowGenesis(node: BlockNode)
    requires Linked(node)
    ensures node.height >= 0
  {
  }

  /** The window lists the last blocks of the path, newest first. */
  lemma {:induction false} WindowIsPath(node: BlockNode, k: nat, i: nat)
    requires Linked(node) && i < |Window(node, k)|
    ensures i <= node.height && Window(node, k)[i] == Path(node)[node.height - i].fields.timestamp
    decreases k
  {
    if i > 0 {
      WindowIsPath(node.parent, k - 1, i - 1);
    }
  }

  method CalcPastMedianTime(node: BlockNode) returns (median: int)
    requires Linked(node)
    ensures IsMedian(Window(node, MEDIAN_TIME_BLOCKS), median)
    ensures var w := Window(node, MEDIAN_TIME_BLOCKS);
            && node.height >= 0 && |w| == (if node.height < 11 then node.height + 1 else 11)
            && (forall i | 0 <= i < |w| :: w[i] == Path(node)[node.height - i].fields.timestamp)
            && 2 * Below(w, median) <= |w| < 2 * Below(w, median + 1)
  {
    hide Window, Sort, Below, Linked, Path;
    var timestamps := new int[MEDIAN_TIME_BLOCKS];
    var numNodes, n: BlockNode? := 0, node;
    while numNodes < MEDIAN_TIME_BLOCKS && n != null
      invariant numNodes <= MEDIAN_TIME_BLOCKS && (numNodes == 0 ==> n == node)
      invariant timestamps[..numNodes] + Window(n, MEDIAN_TIME_BLOCKS - numNodes) == Window(node, MEDIAN_TIME_BLOCKS)
      decreases MEDIAN_TIME_BLOCKS - numNodes
    {
      WindowStep(n, MEDIAN_TIME_BLOCKS - numNodes);
      timestamps[numNodes] := n.fields.timestamp;
      numNodes := numNodes + 1;
      n := n.parent;
    }
    var times := timestamps[..numNodes];
    WindowEnd(n, MEDIAN_TIME_BLOCKS - numNodes);
    WindowSize(node, MEDIAN_TIME_BLOCKS);
    NotBelowGenesis(node);
    assert times == Window(node, MEDIAN_TIME_BLOCKS);
    MiddleIsMedian(times);
    forall i | 0 <= i < numNodes ensures i <= node.height && times[i] == Path(node)[node.height - i].fields.timestamp {
      WindowIsPath(node, MEDIAN_TIME_BLOCKS, i);
    }
    median := Sort(times)[Middle(times)];
  }

  /** The median past time of a branch. */
  ghost function Median(node: BlockNode): int
    requires Linked(node)
  {
    WindowSize(node, MEDIAN_TIME_BLOCKS);
    var w := Window(node, MEDIAN_TIME_BLOCKS);
    SortSorts(w, 0);
    Sort(w)[Middle(w)]
  }

  lemma MedianIs(node: BlockNode)
    requires Linked(node)
    ensures IsMedian(Window(node, MEDIAN_TIME_BLOCKS), Median(node))
  {
    WindowSize(node, MEDIAN_TIME_BLOCKS);
    MiddleIsMedian(Window(node, MEDIAN_TIME_BLOCKS));
  }

  /** Looking one block further back adds at most one timestamp. */
  lemma {:induction false} Slide(node: BlockNode?, k: nat, t: int)
    ensures Below(Window(node, k), t) <= Below(Window(node, k + 1), t) <= Below(Window(node, k), t) + 1
    ensures |Window(node, k)| <= |Window(node, k + 1)| <= |Window(node, k)| + 1
    ensures |Window(node, k + 1)| == |Window(node, k)| ==> Window(node, k + 1) == Window(node, k)
    decreases k
  {
    if k > 0 && node != null {
      Slide(node.parent, k - 1, t);
      BelowPush(node, k, t);
      BelowPush(node, k + 1, t);
    }
  }

  lemma BelowPush(node: BlockNode, k: nat, t: int)
    requires k > 0
    ensures Below(Window(node, k), t)
         == Below(Window(node.parent, k - 1), t) + if node.fields.timestamp < t then 1 else 0
  {
    assert Window(node, k)[1..] == Window(node.parent, k - 1);
  }

  /** A block later than its parent's median moves the median forward, and not past itself. */
  lemma MedianAdvances(node: BlockNode)
    requires Linked(node) && node.parent != null && node.fields.timestamp > Median(node.parent)
    ensures Median(node.parent) <= Median(node) <= node.fields.timestamp
  {
    hide Sort, Window, Below, Median, Linked;
    Sizes(node);
    var k := MEDIAN_TIME_BLOCKS;
    var m, m1, t := Median(node.parent), Median(node), node.fields.timestamp;
    MedianIs(node.parent);
    MedianIs(node);
    Slide(node.parent, k - 1, m);
    Slide(node.parent, k - 1, m + 1);
    BelowPush(node, k, m);
    BelowPush(node, k, t + 1);
    BelowMonotone(Window(node.parent, k - 1), m + 1, t + 1);
    if m1 < m { BelowMonotone(Window(node, k), m1 + 1, m); }
    if m1 > t { BelowMonotone(Window(node, k), t + 1, m1); }
  }

  lemma Sizes(node: BlockNode)
    requires Linked(node) && node.parent != null
    ensures Linked(node.parent)
    ensures |Window(node, MEDIAN_TIME_BLOCKS)| == |Window(node.parent, MEDIAN_TIME_BLOCKS - 1)| + 1
  {
  }

  /** Every block after genesis passed the timestamp rule. */
  ghost predicate Timely(node: BlockNode)
    requires Linked(node)
    decreases node.height
  {
    node.parent != null ==> node.fields.timestamp > Median(node.parent) && Timely(node.parent)
  }

  /** Along such a branch the median never decreases, and every block is later than
      the median at every block before it. */
  lemma {:induction false} MedianNeverDecreases(node: BlockNode, h: nat)
    requires Linked(node) && Timely(node) && h <= node.height
    ensures Linked(Path(node)[h]) && Median(Path(node)[h]) <= Median(node)
    ensures h < node.height ==> Median(Path(node)[h]) < node.fields.timestamp
    decreases node.height
  {
    hide Median;
    PathOfPath(node, h);
    if h < node.height {
      MedianNeverDecreases(node.parent, h);
      MedianAdvances(node);
      assert Path(node)[h] == Path(node.parent)[h];
    }
  }
}
