/**
 * Node and build_huffman_tree: the greedy construction that repeatedly takes
 * the two lowest-frequency nodes off the heap and pushes their merge.
 */
module HuffmanTree {
  import opened Errors
  import Frequency

  /**
   * A leaf carries a symbol and its frequency; an internal node (char None in
   * the Python class) carries both children and a frequency of its own.
   */
  datatype Node = Leaf(symbol: char, freq: nat) | Internal(left: Node, right: Node, freq: nat)

  /** The leaf symbols, left to right. */
  function Symbols(t: Node): (r: seq<char>)
    ensures |r| >= 1
    ensures t.Leaf? <==> |r| == 1
  {
    match t
    case Leaf(c, _) => [c]
    case Internal(l, r, _) => Symbols(l) + Symbols(r)
  }

  /** Every internal node's frequency is the sum of its children's. */
  ghost predicate WellFormed(t: Node) {
    match t
    case Leaf(_, _) => true
    case Internal(l, r, f) => f == l.freq + r.freq && WellFormed(l) && WellFormed(r)
  }

  /** Every leaf carries the frequency the table gives its symbol. */
  ghost predicate LeavesAgree(t: Node, freq: map<char, nat>) {
    match t
    case Leaf(c, f) => c in freq && f == freq[c]
    case Internal(l, r, _) => LeavesAgree(l, freq) && LeavesAgree(r, freq)
  }

  function HeapWeight(heap: seq<Node>): nat {
    if heap == [] then 0 else heap[0].freq + HeapWeight(heap[1..])
  }

  function HeapSymbols(heap: seq<Node>): seq<char> {
    if heap == [] then [] else Symbols(heap[0]) + HeapSymbols(heap[1..])
  }

  lemma {:induction false} HeapAppend(a: seq<Node>, b: seq<Node>)
    ensures HeapWeight(a + b) == HeapWeight(a) + HeapWeight(b)
    ensures HeapSymbols(a + b) == HeapSymbols(a) + HeapSymbols(b)
  {
    if a == [] {
      assert a + b == b;
    } else {
      assert (a + b)[0] == a[0];
      assert (a + b)[1..] == a[1..] + b;
      HeapAppend(a[1..], b);
    }
  }

  /** What the heap keeps true across the merging loop. */
  ghost predicate HeapInvariant(heap: seq<Node>, freq: map<char, nat>) {
    && (forall t :: t in heap ==> WellFormed(t) && LeavesAgree(t, freq))
    && multiset(HeapSymbols(heap)) == multiset(freq.Keys)
    && HeapWeight(heap) == Frequency.MapSum(freq)
  }

  /**
   * heapq.heappop: removes an element of least frequency (Node.__lt__ compares
   * freq only). This scan takes the first such element.
   */
  method ExtractMin(heap: seq<Node>) returns (m: Node, rest: seq<Node>, ghost k: nat)
    requires heap != []
    ensures k < |heap| && m == heap[k] && rest == heap[..k] + heap[k + 1..]
    ensures forall t :: t in heap ==> m.freq <= t.freq
  {
    var best := 0;
    var i := 1;
    while i < |heap|
      invariant 1 <= i <= |heap| && best < i
      invariant forall j :: 0 <= j < i ==> heap[best].freq <= heap[j].freq
    {
      if heap[i].freq < heap[best].freq {
        best := i;
      }
      i := i + 1;
    }
    m, rest, k := heap[best], heap[..best] + heap[best + 1..], best;
  }

  /** Taking one element out of the heap takes its weight and its symbols out. */
  lemma RemoveAt(heap: seq<Node>, k: nat)
    requires k < |heap|
    ensures HeapWeight(heap) == heap[k].freq + HeapWeight(heap[..k] + heap[k + 1..])
    ensures multiset(HeapSymbols(heap))
         == multiset(Symbols(heap[k])) + multiset(HeapSymbols(heap[..k] + heap[k + 1..]))
  {
    var a, x, b := heap[..k], heap[k], heap[k + 1..];
    var xb := [x] + b;
    assert heap == a + xb;
    HeapCons(x, b);
    HeapAppend(a, xb);
    HeapAppend(a, b);
    var sa, sx, sb := HeapSymbols(a), Symbols(x), HeapSymbols(b);
    assert HeapSymbols(heap) == sa + (sx + sb);
    assert multiset(sa + (sx + sb)) == multiset(sx) + multiset(sa + sb);
  }

  lemma HeapSnoc(heap: seq<Node>, x: Node)
    ensures HeapWeight(heap + [x]) == HeapWeight(heap) + x.freq
    ensures HeapSymbols(heap + [x]) == HeapSymbols(heap) + Symbols(x)
  {
    HeapAppend(heap, [x]);
    HeapCons(x, []);
    assert [x] + [] == [x];
  }

  lemma HeapCons(x: Node, b: seq<Node>)
    ensures HeapWeight([x] + b) == x.freq + HeapWeight(b)
    ensures HeapSymbols([x] + b) == Symbols(x) + HeapSymbols(b)
  {
    var xb := [x] + b;
    assert xb[0] == x && xb[1..] == b;
  }

  /** The state of the loop that lays out one leaf per key: `rest` is what is still to do. */
  ghost predicate LayoutInvariant(heap: seq<Node>, rest: map<char, nat>, freq: map<char, nat>) {
    && rest.Keys <= freq.Keys
    && (forall c :: c in rest ==> rest[c] == freq[c])
    && |heap| + |rest| == |freq|
    && (forall t :: t in heap ==> t.Leaf? && t.symbol in freq && t.freq == freq[t.symbol])
    && (forall c :: multiset(HeapSymbols(heap))[c] == if c in freq && c !in rest then 1 else 0)
    && HeapWeight(heap) + Frequency.MapSum(rest) == Frequency.MapSum(freq)
  }

  lemma LayoutStep(heap: seq<Node>, rest: map<char, nat>, freq: map<char, nat>, c: char)
    requires LayoutInvariant(heap, rest, freq) && c in rest
    ensures LayoutInvariant(heap + [Leaf(c, rest[c])], rest - {c}, freq)
  {
    var leaf := Leaf(c, rest[c]);
    var heap', rest' := heap + [leaf], rest - {c};
    assert HeapWeight(heap') + Frequency.MapSum(rest') == Frequency.MapSum(freq) by {
      HeapSnoc(heap, leaf);
      Frequency.MapSumRemove(rest, c);
    }
    assert multiset(HeapSymbols(heap')) == multiset(HeapSymbols(heap)) + multiset{c} by {
      HeapSnoc(heap, leaf);
    }
    assert forall t :: t in heap' ==> t in heap || t == leaf;
  }

  /** [Node(char, freq) for char, freq in freq_dict.items()]: one leaf per key. */
  method InitialHeap(freq: map<char, nat>) returns (heap: seq<Node>)
    ensures |heap| == |freq|
    ensures HeapInvariant(heap, freq)
    ensures forall t :: t in heap ==> t.Leaf?
  {
    heap := [];
    var rest := freq;
    while rest != map[]
      invariant LayoutInvariant(heap, rest, freq)
      decreases |rest|
    {
      var c :| c in rest;
      LayoutStep(heap, rest, freq, c);
      heap := heap + [Leaf(c, rest[c])];
      rest := rest - {c};
    }
    assert multiset(HeapSymbols(heap)) == multiset(freq.Keys);
  }

  /** Popping two nodes and pushing their merge keeps the heap invariant. */
  lemma MergeStep(heap: seq<Node>, k1: nat, rest1: seq<Node>, k2: nat, rest2: seq<Node>, freq: map<char, nat>)
    requires HeapInvariant(heap, freq)
    requires k1 < |heap| && rest1 == heap[..k1] + heap[k1 + 1..]
    requires k2 < |rest1| && rest2 == rest1[..k2] + rest1[k2 + 1..]
    ensures HeapInvariant(rest2 + [Internal(heap[k1], rest1[k2], heap[k1].freq + rest1[k2].freq)], freq)
  {
    MergeTotals(heap, k1, k2);
    MergeNodes(heap, k1, k2, freq);
  }

  lemma MergeTotals(heap: seq<Node>, k1: nat, k2: nat)
    requires k1 < |heap| && k2 < |heap| - 1
    ensures var rest1 := heap[..k1] + heap[k1 + 1..];
            var rest2 := rest1[..k2] + rest1[k2 + 1..];
            var heap' := rest2 + [Internal(heap[k1], rest1[k2], heap[k1].freq + rest1[k2].freq)];
            HeapWeight(heap') == HeapWeight(heap) && multiset(HeapSymbols(heap')) == multiset(HeapSymbols(heap))
  {
    var rest1 := heap[..k1] + heap[k1 + 1..];
    var rest2 := rest1[..k2] + rest1[k2 + 1..];
    var node1, node2 := heap[k1], rest1[k2];
    var merged := Internal(node1, node2, node1.freq + node2.freq);
    RemoveAt(heap, k1);
    RemoveAt(rest1, k2);
    HeapSnoc(rest2, merged);
  }

  lemma MergeNodes(heap: seq<Node>, k1: nat, k2: nat, freq: map<char, nat>)
    requires forall t :: t in heap ==> WellFormed(t) && LeavesAgree(t, freq)
    requires k1 < |heap| && k2 < |heap| - 1
    ensures var rest1 := heap[..k1] + heap[k1 + 1..];
            var rest2 := rest1[..k2] + rest1[k2 + 1..];
            var heap' := rest2 + [Internal(heap[k1], rest1[k2], heap[k1].freq + rest1[k2].freq)];
            forall t :: t in heap' ==> WellFormed(t) && LeavesAgree(t, freq)
  {
    var rest1 := heap[..k1] + heap[k1 + 1..];
    var rest2 := rest1[..k2] + rest1[k2 + 1..];
    var node1, node2 := heap[k1], rest1[k2];
    var merged := Internal(node1, node2, node1.freq + node2.freq);
    assert forall t :: t in rest1 ==> t in heap;
    assert forall t :: t in rest2 ==> t in rest1;
    assert node2 in rest1;
  }

  /**
   * build_huffman_tree: merges the two least-frequent nodes until one is left
   * and returns heap[0], which raises IndexError for an empty table.
   */
  method BuildHuffmanTree(freq: map<char, nat>) returns (r: Result<Node>)
    ensures r.Failure? <==> |freq| == 0
    ensures r.Failure? ==> r.error == IndexError
    ensures r.Success? ==> WellFormed(r.value) && LeavesAgree(r.value, freq)
    ensures r.Success? ==> multiset(Symbols(r.value)) == multiset(freq.Keys)
    ensures r.Success? ==> r.value.freq == Frequency.MapSum(freq)
  {
    var heap := InitialHeap(freq);
    ghost var merges := 0;
    while |heap| > 1
      invariant HeapInvariant(heap, freq)
      invariant |heap| + merges == |freq|
      invariant |heap| >= 1 || |freq| == 0
      decreases |heap|
    {
      var node1, rest1, k1 := ExtractMin(heap);
      var node2, rest2, k2 := ExtractMin(rest1);
      var merged := Internal(node1, node2, node1.freq + node2.freq);
      MergeStep(heap, k1, rest1, k2, rest2, freq);
      heap := rest2 + [merged];
      merges := merges + 1;
    }
    if |heap| == 0 {
      return Failure(IndexError);
    }
    LastNode(heap, freq);
    return Success(heap[0]);
  }

  /** The one node left on the heap carries everything the heap carried. */
  lemma LastNode(heap: seq<Node>, freq: map<char, nat>)
    requires |heap| == 1 && HeapInvariant(heap, freq)
    ensures WellFormed(heap[0]) && LeavesAgree(heap[0], freq)
    ensures multiset(Symbols(heap[0])) == multiset(freq.Keys)
    ensures heap[0].freq == Frequency.MapSum(freq)
  {
    assert heap == [] + [heap[0]];
    HeapSnoc([], heap[0]);
    assert heap[0] in heap;
  }
}
