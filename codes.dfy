/**
 * generate_codes: a depth-first walk that gives each leaf the path to it,
 * '0' (false) for a step to the left child and '1' (true) to the right.
 */
module Codes {
  import opened Errors
  import opened HuffmanTree

  type CodeTable = map<char, seq<bool>>

  /** The symbol of the leaf reached by following path from t, if the path ends on a leaf. */
  function LeafAt(t: Node, path: seq<bool>): Option<char> {
    if path == [] then
      if t.Leaf? then Some(t.symbol) else None
    else
      match t
      case Leaf(_, _) => None
      case Internal(l, r, _) => LeafAt(if path[0] then r else l, path[1..])
  }

  /** No code of the table is a prefix of the code of another symbol. */
  ghost predicate PrefixFree(codes: CodeTable) {
    forall a, b :: a in codes && b in codes && a != b ==> !(codes[a] <= codes[b])
  }

  ghost predicate NonEmptyCodes(codes: CodeTable) {
    forall c :: c in codes ==> codes[c] != []
  }

  /**
   * The table the recursive helper fills starting at t with current_code
   * prefix; the right subtree is visited last, so its entries win.
   */
  function CodesOf(t: Node, prefix: seq<bool>): (codes: CodeTable)
    ensures codes.Keys == set c | c in Symbols(t)
    ensures forall c :: c in codes ==> prefix <= codes[c] && LeafAt(t, codes[c][|prefix|..]) == Some(c)
  {
    match t
    case Leaf(c, _) =>
      map[c := prefix]
    case Internal(l, r, _) =>
      var left, right := CodesOf(l, prefix + [false]), CodesOf(r, prefix + [true]);
      JoinTables(t, prefix, left, right);
      left + right
  }

  /** The tables of the two subtrees, joined, are the table of the parent. */
  lemma JoinTables(t: Node, prefix: seq<bool>, left: CodeTable, right: CodeTable)
    requires t.Internal?
    requires left.Keys == set c | c in Symbols(t.left)
    requires right.Keys == set c | c in Symbols(t.right)
    requires forall c :: c in left ==> prefix + [false] <= left[c] && LeafAt(t.left, left[c][|prefix| + 1..]) == Some(c)
    requires forall c :: c in right ==> prefix + [true] <= right[c] && LeafAt(t.right, right[c][|prefix| + 1..]) == Some(c)
    ensures (left + right).Keys == set c | c in Symbols(t)
    ensures forall c :: c in left + right ==>
      prefix <= (left + right)[c] && LeafAt(t, (left + right)[c][|prefix|..]) == Some(c)
  {
    var codes := left + right;
    forall c | c in codes
      ensures prefix <= codes[c] && LeafAt(t, codes[c][|prefix|..]) == Some(c)
    {
      if c in right {
        ChildPath(t.left, t.right, t.freq, prefix, true, codes[c], c);
      } else {
        ChildPath(t.left, t.right, t.freq, prefix, false, codes[c], c);
      }
    }
  }

  /** A path into a child, behind the step to that child, is a path into the parent. */
  lemma ChildPath(l: Node, r: Node, f: nat, prefix: seq<bool>, step: bool, code: seq<bool>, c: char)
    requires prefix + [step] <= code
    requires LeafAt(if step then r else l, code[|prefix| + 1..]) == Some(c)
    ensures prefix <= code && LeafAt(Internal(l, r, f), code[|prefix|..]) == Some(c)
  {
    assert code[|prefix|..][0] == step;
    assert code[|prefix|..][1..] == code[|prefix| + 1..];
  }

  /** A path that ends on a leaf cannot be extended. */
  lemma {:induction false} LeafAtExtend(t: Node, a: seq<bool>, b: seq<bool>)
    requires LeafAt(t, a).Some? && a <= b
    ensures LeafAt(t, b) == if |a| == |b| then LeafAt(t, a) else None
  {
    if |a| == |b| {
      assert a == b;
    } else if a != [] {
      match t
      case Internal(l, r, _) =>
        assert a[1..] <= b[1..];
        LeafAtExtend(if a[0] then r else l, a[1..], b[1..]);
    }
  }

  /** The table generated from any tree is prefix-free. */
  lemma CodesPrefixFree(t: Node)
    ensures PrefixFree(CodesOf(t, []))
  {
    var codes := CodesOf(t, []);
    forall a, b | a in codes && b in codes && a != b
      ensures !(codes[a] <= codes[b])
    {
      assert codes[a][0..] == codes[a] && codes[b][0..] == codes[b];
      if codes[a] <= codes[b] {
        LeafAtExtend(t, codes[a], codes[b]);
      }
    }
  }

  lemma UnionAssociative(a: CodeTable, b: CodeTable, c: CodeTable)
    ensures (a + b) + c == a + (b + c)
  {
  }

  /** helper(node, current_code), adding its entries to the table it is given. */
  method FillCodes(node: Node, current: seq<bool>, codes: CodeTable) returns (filled: CodeTable)
    ensures filled == codes + CodesOf(node, current)
    decreases node
  {
    match node
    case Leaf(c, _) =>
      filled := codes[c := current];
    case Internal(l, r, _) =>
      ghost var left, right := CodesOf(l, current + [false]), CodesOf(r, current + [true]);
      filled := FillCodes(l, current + [false], codes);
      filled := FillCodes(r, current + [true], filled);
      UnionAssociative(codes, left, right);
      assert CodesOf(node, current) == left + right;
  }

  lemma EmptyUnion(m: CodeTable)
    ensures map[] + m == m
  {
  }

  /** The table of a whole tree: codes are the paths to the leaves, from the root. */
  lemma RootCodes(root: Node)
    ensures var codes := CodesOf(root, []);
            && (forall c :: c in codes ==> LeafAt(root, codes[c]) == Some(c))
            && PrefixFree(codes)
            && (root.Leaf? ==> codes == map[root.symbol := []])
            && (root.Internal? ==> NonEmptyCodes(codes))
  {
    var codes := CodesOf(root, []);
    assert forall c :: c in codes ==> codes[c][0..] == codes[c];
    CodesPrefixFree(root);
  }

  /**
   * generate_codes: every leaf symbol gets the path to its leaf, so codes are
   * as long as the leaf is deep; a root that is a leaf gets the empty code.
   */
  method GenerateCodes(root: Node) returns (codes: CodeTable)
    ensures codes.Keys == set c | c in Symbols(root)
    ensures forall c :: c in codes ==> LeafAt(root, codes[c]) == Some(c)
    ensures PrefixFree(codes)
    ensures root.Leaf? ==> codes == map[root.symbol := []]
    ensures root.Internal? ==> NonEmptyCodes(codes)
  {
    codes := FillCodes(root, [], map[]);
    EmptyUnion(CodesOf(root, []));
    RootCodes(root);
  }

  /**
   * generate_codes corrected: a root that is a leaf gets the one-bit code "0"
   * instead of the empty code, so that every table is prefix-free and every
   * code is non-empty.
   */
  method GenerateCodesFixed(root: Node) returns (codes: CodeTable)
    ensures codes.Keys == set c | c in Symbols(root)
    ensures PrefixFree(codes) && NonEmptyCodes(codes)
    ensures root.Leaf? ==> codes == map[root.symbol := [false]]
  {
    if root.Leaf? {
      codes := map[root.symbol := [false]];
    } else {
      codes := GenerateCodes(root);
    }
  }
}
