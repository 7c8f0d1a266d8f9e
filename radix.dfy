/**
  The node of the sparse radix (Patricia) trie, its shape invariants and the
  byte-wise common-prefix measure that every operation starts with.

  A Go `*Trie` is both the handle of a tree and one of its nodes; here a node
  is a value.  `children == []` stands for Go's nil `Children` pointer, any
  other children sequence is the `[256]*Trie` array, one slot per byte, and a
  `None` slot is a nil child pointer.
*/
module Radix {
  import opened Wrappers

  /** One byte of a key. */
  newtype Byte = b: int | 0 <= b < 256

  /** A key: an opaque byte string (Go `[]byte`). */
  type Key = seq<Byte>

  /** Go's `Trie{Prefix, Value, Children}`. */
  datatype Node<V> = Node(prefix: Key, value: Option<V>, children: seq<Option<Node<V>>>)

  /** `&Trie{}`: no prefix, no value, no children array. */
  function Empty<V>(): Node<V>
  {
    Node([], None, [])
  }

  /** Put's test for `&Trie{}`: no prefix, no children array, no value. */
  predicate IsEmpty<V>(n: Node<V>)
    ensures IsEmpty(n) <==> n == Empty()
  {
    |n.prefix| == 0 && |n.children| == 0 && n.value.None?
  }

  /** `&[256]*Trie{}`: a freshly allocated children array, every slot nil. */
  function NoSlots<V>(): (slots: seq<Option<Node<V>>>)
    ensures |slots| == 256
    ensures forall i | 0 <= i < 256 :: slots[i].None?
  {
    seq(256, i => None)
  }

  /** `t.Children != nil && t.Children[b] != nil` */
  predicate HasChild<V>(n: Node<V>, b: Byte)
  {
    (b as int) < |n.children| && n.children[b].Some?
  }

  /** `t.Children[b]`, when it is not nil. */
  function ChildAt<V>(n: Node<V>, b: Byte): Node<V>
    requires HasChild(n, b)
  {
    n.children[b].value
  }

  /** Go's array type: the children pointer is nil or points to exactly 256 slots. */
  predicate SlotCount<V>(n: Node<V>)
  {
    |n.children| == 0 || |n.children| == 256
  }

  /** Every node of the tree has a nil or 256-slot children array. */
  ghost predicate Typed<V>(n: Node<V>)
  {
    && SlotCount(n)
    && forall i | 0 <= i < |n.children| && n.children[i].Some? :: Typed(n.children[i].value)
  }

  /** The node carries a value or has at least one child. */
  ghost predicate Live<V>(n: Node<V>)
  {
    n.value.Some? || exists i | 0 <= i < |n.children| :: n.children[i].Some?
  }

  /**
    The shape that Put builds below a node: every child has a non-empty prefix,
    sits at the slot equal to that prefix's first byte (so siblings have distinct
    first bytes) and is itself live and well shaped.
  */
  ghost predicate Shaped<V>(n: Node<V>)
    decreases n, 1
  {
    && SlotCount(n)
    && forall i | 0 <= i < |n.children| && n.children[i].Some? :: ShapedChild(n.children[i].value, i)
  }

  /** The conditions on a child `c` that sits in slot `i`. */
  ghost predicate ShapedChild<V>(c: Node<V>, i: int)
    decreases c, 2
  {
    c.prefix != [] && c.prefix[0] as int == i && Live(c) && Shaped(c)
  }

  /** The invariant of a whole tree: well shaped, and the root is live unless it is `&Trie{}`. */
  ghost predicate WellFormed<V>(n: Node<V>)
  {
    Shaped(n) && (n == Empty() || Live(n))
  }

  /** Number of nodes of the tree: the termination measure of Put. */
  ghost function Size<V>(n: Node<V>): (s: nat)
    ensures s >= 1
    decreases n, 1
  {
    1 + SlotsSize(n, 0)
  }

  ghost function SlotsSize<V>(n: Node<V>, i: nat): nat
    decreases n, 0, |n.children| - i
  {
    if i >= |n.children| then 0
    else (if n.children[i].Some? then Size(n.children[i].value) else 0) + SlotsSize(n, i + 1)
  }

  lemma {:induction false} SlotsSizeCovers<V>(n: Node<V>, i: nat, j: nat)
    requires i <= j < |n.children| && n.children[j].Some?
    ensures Size(n.children[j].value) <= SlotsSize(n, i)
    decreases j - i
  {
    if i < j {
      SlotsSizeCovers(n, i + 1, j);
    }
  }

  /** A child is a strictly smaller tree than its parent. */
  lemma ChildSmaller<V>(n: Node<V>, b: Byte)
    requires HasChild(n, b)
    ensures Size(ChildAt(n, b)) < Size(n)
  {
    SlotsSizeCovers(n, 0, b as int);
  }

  /**
    Length of the common byte-wise prefix of `a` and `b`: the value of `ind`
    after each operation's `for ind < len(..) && ind < len(..) && a[ind] == b[ind]`
    loop.
  */
  function CommonLen(a: Key, b: Key): (r: nat)
    ensures r <= |a| && r <= |b|
    ensures a[..r] == b[..r]
    ensures r == |a| || r == |b| || a[r] != b[r]
  {
    if a == [] || b == [] || a[0] != b[0] then 0
    else
      var r' := CommonLen(a[1..], b[1..]);
      assert a[..r' + 1] == [a[0]] + a[1..][..r'];
      assert b[..r' + 1] == [b[0]] + b[1..][..r'];
      1 + r'
  }

  /** The three conditions of CommonLen's contract determine it. */
  lemma CommonLenUnique(a: Key, b: Key, r: nat)
    requires r <= |a| && r <= |b|
    requires a[..r] == b[..r]
    requires r == |a| || r == |b| || a[r] != b[r]
    ensures r == CommonLen(a, b)
  {
  }

  /** A common start of length `i` can be dropped from both sides. */
  lemma CommonLenDrop(a: Key, b: Key, i: nat)
    requires i <= |a| && i <= |b| && a[..i] == b[..i]
    ensures i <= CommonLen(a, b) && CommonLen(a[i..], b[i..]) == CommonLen(a, b) - i
  {
    var r := CommonLen(a, b);
    assert a[i..][..r - i] == a[..r][i..] && b[i..][..r - i] == b[..r][i..];
    CommonLenUnique(a[i..], b[i..], r - i);
  }

  /** The common part covers all of `a` exactly when `a` is a prefix of `b`. */
  lemma CommonLenPrefix(a: Key, b: Key)
    ensures CommonLen(a, b) == |a| <==> a <= b
  {
    if a <= b {
      CommonLenUnique(a, b, |a|);
    }
  }
}
