/**
  `Put` and its helper `getChildOrCreate`.

  `Insert` is the specification: the tree and the old value that Put leaves
  behind, as a function of the tree before.  `PutNode` follows the Go method
  statement by statement on node values, and the `Trie` class is the handle
  whose fields Put updates in place.
*/
module Insertion {
  import opened Wrappers
  import opened Radix
  import opened Lookup
  import opened Traversal

  /**
    The split step of Put: the node keeps the common part `prefix[..ind]`, loses
    its value, and gets a fresh children array whose only child holds the rest
    of the prefix together with the old value and children.
  */
  function Split<V>(n: Node<V>, ind: nat): (m: Node<V>)
    requires ind < |n.prefix|
    ensures m.prefix == n.prefix[..ind] && m.value == None && |m.children| == 256
    ensures m.children[n.prefix[ind]] == Some(Node(n.prefix[ind..], n.value, n.children))
    ensures forall i | 0 <= i < 256 && i != n.prefix[ind] as int :: m.children[i] == None
  {
    var p := n.prefix;
    Node(p[..ind], None, NoSlots()[p[ind] := Some(Node(p[ind..], n.value, n.children))])
  }

  /**
    `getChildOrCreate(b)`: allocates the children array when it is nil and an
    empty child `&Trie{}` when slot `b` is nil; returns the node and the child.
  */
  function ChildOrCreate<V>(n: Node<V>, b: Byte): (r: (Node<V>, Node<V>))
    requires SlotCount(n)
    ensures r.0.prefix == n.prefix && r.0.value == n.value
    ensures |r.0.children| == 256 && r.0.children[b] == Some(r.1)
    ensures forall i | 0 <= i < 256 && i != b as int ::
      r.0.children[i] == if i < |n.children| then n.children[i] else None
    ensures HasChild(n, b) ==> r.1 == ChildAt(n, b)
    ensures !HasChild(n, b) ==> r.1 == Empty()
  {
    if n.children == [] then
      (n.(children := NoSlots()[b := Some(Empty())]), Empty())
    else if n.children[b].None? then
      (n.(children := n.children[b := Some(Empty())]), Empty())
    else
      (n, n.children[b].value)
  }

  /**
    Put as a function: the new tree and the value previously stored under the
    key (`nil` when there was none).  The branches are those of the Go method:
    an empty node `&Trie{}` adopts a non-empty key as its prefix; otherwise a
    node whose prefix diverges from the key is split first; then either the
    key ends here and the value is set, or the rest of the key goes into the
    child at the next key byte.
  */
  function Insert<V>(n: Node<V>, key: Key, v: V): (r: (Node<V>, Option<V>))
    requires Typed(n)
    ensures Typed(r.0)
    decreases Size(n), if n == Empty() then 0 else 1
  {
    var ind := CommonLen(n.prefix, key);
    if ind == |n.prefix| && ind < |key| && IsEmpty(n) then
      (Node(key, Some(v), []), None)
    else
      var m := if ind < |n.prefix| then Split(n, ind) else n;
      if ind == |key| then
        (m.(value := Some(v)), m.value)
      else
        var b := key[ind];
        var (m1, c) := ChildOrCreate(m, b);
        assert Typed(c) && (c == Empty() || Size(c) < Size(n)) by {
          if HasChild(m, b) {
            assert m == n;
            ChildSmaller(n, b);
          }
        }
        var (c1, prev) := Insert(c, key[ind..], v);
        (m1.(children := m1.children[b := Some(c1)]), prev)
  }

  // ---- Get after each step ----

  lemma GetSetValue<V>(n: Node<V>, x: Option<V>, k: Key)
    ensures Get(n.(value := x), k) == if k == n.prefix then x else Get(n, k)
  {
    GetUnfold(n, k);
    GetUnfold(n.(value := x), k);
  }

  /** Dropping the first `ind` bytes of the prefix drops them from every key. */
  lemma GetDropPrefix<V>(n: Node<V>, ind: nat, k: Key)
    requires ind <= |n.prefix| && ind <= |k| && k[..ind] == n.prefix[..ind]
    ensures Get(n.(prefix := n.prefix[ind..]), k[ind..]) == Get(n, k)
  {
    var p := n.prefix;
    var m, k' := n.(prefix := p[ind..]), k[ind..];
    var r := CommonLen(p, k);
    assert CommonLen(m.prefix, k') == r - ind by {
      CommonLenDrop(p, k, ind);
    }
    if r < |p| {
      assert Get(m, k') == None;
    } else if r < |k| {
      assert k'[r - ind] == k[r] && k'[r - ind..] == k[r..];
      assert Get(m, k') == if HasChild(n, k[r]) then Get(ChildAt(n, k[r]), k[r..]) else None;
    } else {
      assert Get(m, k') == n.value;
    }
  }

  /** Splitting a node does not change what it stores. */
  lemma GetSplit<V>(n: Node<V>, ind: nat, k: Key)
    requires ind < |n.prefix|
    ensures Get(Split(n, ind), k) == Get(n, k)
  {
    var p := n.prefix;
    var m := Split(n, ind);
    GetUnfold(m, k);
    if p[..ind] <= k && |k| > ind && k[ind] == p[ind] {
      GetDropPrefix(n, ind, k);
    } else {
      GetUnfold(n, k);
    }
  }

  /** getChildOrCreate does not change what the node stores. */
  lemma GetChildOrCreate<V>(n: Node<V>, b: Byte, k: Key)
    requires SlotCount(n)
    ensures Get(ChildOrCreate(n, b).0, k) == Get(n, k)
  {
    var n1 := ChildOrCreate(n, b).0;
    GetUnfold(n, k);
    GetUnfold(n1, k);
    if n.prefix <= k && |k| > |n.prefix| && k[|n.prefix|] == b && !HasChild(n, b) {
      GetEmpty<V>(k[|n.prefix|..]);
    }
  }

  /** Replacing the child in slot `b` only changes the keys that pass through slot `b`. */
  lemma GetReplaceChild<V>(m: Node<V>, b: Byte, c: Node<V>, k: Key)
    requires (b as int) < |m.children|
    ensures Get(m.(children := m.children[b := Some(c)]), k) ==
      if m.prefix <= k && |k| > |m.prefix| && k[|m.prefix|] == b then Get(c, k[|m.prefix|..])
      else Get(m, k)
  {
    GetUnfold(m, k);
    GetUnfold(m.(children := m.children[b := Some(c)]), k);
  }

  /**
    The descent step of Put: when the child at the next key byte stores the
    rest of the key and otherwise what it stored, the node stores the key and
    otherwise what it stored.
  */
  lemma GetDescend<V>(m: Node<V>, key: Key, ind: nat, v: V, c: Node<V>, c1: Node<V>, k: Key)
    requires SlotCount(m) && ind < |key| && m.prefix == key[..ind]
    requires c == ChildOrCreate(m, key[ind]).1
    requires forall k' :: Get(c1, k') == (if k' == key[ind..] then Some(v) else Get(c, k'))
    ensures var m1 := ChildOrCreate(m, key[ind]).0;
      Get(m1.(children := m1.children[key[ind] := Some(c1)]), k) ==
      if k == key then Some(v) else Get(m, k)
  {
    if m.prefix <= k && |k| > ind && k[ind] == key[ind] {
      assert Get(c1, k[ind..]) == (if k[ind..] == key[ind..] then Some(v) else Get(c, k[ind..]));
      GetDescendThrough(m, key, ind, v, c, c1, k);
    } else {
      GetDescendBeside(m, key, ind, c1, k);
    }
  }

  /** GetDescend for a key that passes through the replaced child. */
  lemma GetDescendThrough<V>(m: Node<V>, key: Key, ind: nat, v: V, c: Node<V>, c1: Node<V>, k: Key)
    requires SlotCount(m) && ind < |key| && m.prefix == key[..ind]
    requires m.prefix <= k && |k| > ind && k[ind] == key[ind]
    requires c == ChildOrCreate(m, key[ind]).1
    requires Get(c1, k[ind..]) == (if k[ind..] == key[ind..] then Some(v) else Get(c, k[ind..]))
    ensures var m1 := ChildOrCreate(m, key[ind]).0;
      Get(m1.(children := m1.children[key[ind] := Some(c1)]), k) ==
      if k == key then Some(v) else Get(m, k)
  {
    var b := key[ind];
    var m1 := ChildOrCreate(m, b).0;
    assert k[ind..] == key[ind..] <==> k == key by {
      SameHead(k, key, ind);
    }
    calc {
      Get(m1.(children := m1.children[b := Some(c1)]), k);
      { GetReplaceChild(m1, b, c1, k); }
      Get(c1, k[ind..]);
      { GetThroughChild(m1, k);
        GetChildOrCreate(m, b, k); }
      if k == key then Some(v) else Get(m, k);
    }
  }

  /** Two sequences with the same first `ind` elements are equal exactly when their rests are. */
  lemma SameHead<T>(a: seq<T>, b: seq<T>, ind: nat)
    requires ind <= |a| && ind <= |b| && a[..ind] == b[..ind]
    ensures a[ind..] == b[ind..] <==> a == b
  {
    if a[ind..] == b[ind..] {
      assert a == a[..ind] + a[ind..] && b == b[..ind] + b[ind..];
    }
  }

  /** GetDescend for a key that does not pass through the replaced child. */
  lemma GetDescendBeside<V>(m: Node<V>, key: Key, ind: nat, c1: Node<V>, k: Key)
    requires SlotCount(m) && ind < |key| && m.prefix == key[..ind]
    requires !(m.prefix <= k && |k| > ind && k[ind] == key[ind])
    ensures k != key
    ensures var m1 := ChildOrCreate(m, key[ind]).0;
      Get(m1.(children := m1.children[key[ind] := Some(c1)]), k) == Get(m, k)
  {
    var b := key[ind];
    GetReplaceChild(ChildOrCreate(m, b).0, b, c1, k);
    GetChildOrCreate(m, b, k);
  }

  /** The child Put descends into stores what the node stores under the key. */
  lemma GetDescendOld<V>(m: Node<V>, key: Key, ind: nat)
    requires SlotCount(m) && ind < |key| && m.prefix == key[..ind]
    ensures Get(ChildOrCreate(m, key[ind]).1, key[ind..]) == Get(m, key)
  {
    var b := key[ind];
    GetChildOrCreate(m, b, key);
    GetThroughChild(ChildOrCreate(m, b).0, key);
  }

  /**
    After Put the key maps to the new value and every other key keeps its
    value; the returned old value is what Get returned for the key before.
  */
  lemma {:induction false} InsertGet<V>(n: Node<V>, key: Key, v: V, k: Key)
    requires Typed(n)
    ensures Get(Insert(n, key, v).0, k) == if k == key then Some(v) else Get(n, k)
    ensures Insert(n, key, v).1 == Get(n, key)
    decreases Size(n), if n == Empty() then 0 else 1
  {
    var ind := CommonLen(n.prefix, key);
    if ind == |n.prefix| && ind < |key| && n == Empty() {
      GetUnfold(Node(key, Some(v), []), k);
      GetEmpty<V>(k);
      GetEmpty<V>(key);
      return;
    }
    var m := if ind < |n.prefix| then Split(n, ind) else n;
    forall k' ensures Get(m, k') == Get(n, k') {
      if ind < |n.prefix| {
        GetSplit(n, ind, k');
      }
    }
    assert m.prefix == key[..ind];
    if ind == |key| {
      assert Insert(n, key, v) == (m.(value := Some(v)), m.value);
      assert key == m.prefix;
      GetSetValue(m, Some(v), k);
      GetUnfold(m, key);
    } else {
      var b := key[ind];
      var (m1, c) := ChildOrCreate(m, b);
      assert Typed(c) && (c == Empty() || Size(c) < Size(n)) by {
        if HasChild(m, b) {
          assert m == n;
          ChildSmaller(n, b);
        }
      }
      var (c1, prev) := Insert(c, key[ind..], v);
      assert Insert(n, key, v) == (m1.(children := m1.children[b := Some(c1)]), prev);
      forall k' ensures Get(c1, k') == if k' == key[ind..] then Some(v) else Get(c, k') {
        InsertGet(c, key[ind..], v, k');
      }
      assert prev == Get(c, key[ind..]) by {
        InsertGet(c, key[ind..], v, key[ind..]);
      }
      GetDescend(m, key, ind, v, c, c1, k);
      GetDescendOld(m, key, ind);
    }
  }

  /** The empty tree `&Trie{}` takes a whole non-empty key as its own prefix. */
  lemma InsertIntoEmpty<V>(key: Key, v: V)
    ensures Insert(Empty<V>(), key, v) == (if key == [] then Node([], Some(v), []) else Node(key, Some(v), []), None)
  {
  }

  // ---- shape ----

  /** Setting one slot of a well-shaped node to a well-shaped child keeps it well shaped. */
  lemma ShapedSetChild<V>(m: Node<V>, b: Byte, c: Node<V>)
    requires |m.children| == 256 && ShapedChild(c, b as int)
    requires forall i | 0 <= i < 256 && i != b as int && m.children[i].Some? :: ShapedChild(m.children[i].value, i)
    ensures Shaped(m.(children := m.children[b := Some(c)]))
    ensures Live(m.(children := m.children[b := Some(c)]))
  {
    var r := m.(children := m.children[b := Some(c)]);
    assert r.children[b].Some?;
  }

  /**
    Put keeps the tree well formed (every child has a non-empty prefix whose
    first byte is its slot, and every node below the root is live) and leaves
    a live root.  The root prefix becomes the key when the tree was `&Trie{}`,
    and otherwise the common part of the old root prefix and the key.
  */
  lemma {:induction false} InsertShaped<V>(n: Node<V>, key: Key, v: V)
    requires Typed(n) && WellFormed(n)
    ensures Shaped(Insert(n, key, v).0) && Live(Insert(n, key, v).0)
    ensures Insert(n, key, v).0.prefix == if n == Empty() then key else n.prefix[..CommonLen(n.prefix, key)]
    decreases Size(n), if n == Empty() then 0 else 1
  {
    var ind := CommonLen(n.prefix, key);
    if ind == |n.prefix| && ind < |key| && n == Empty() {
    } else {
      var m := if ind < |n.prefix| then Split(n, ind) else n;
      assert Shaped(m) && (m == Empty() || Live(m)) by {
        if ind < |n.prefix| {
          var p := n.prefix;
          var rest := Node(p[ind..], n.value, n.children);
          assert Live(rest) && Shaped(rest);
          assert ShapedChild(rest, p[ind] as int);
          assert m.children[p[ind]].Some?;
        }
      }
      if ind == |key| {
        if m == Empty() {
          assert n == Empty();
        }
      } else {
        var b := key[ind];
        var (m1, c) := ChildOrCreate(m, b);
        assert Typed(c) && (c == Empty() || Size(c) < Size(n)) by {
          if HasChild(m, b) {
            assert m == n;
            ChildSmaller(n, b);
          }
        }
        assert WellFormed(c) && (c != Empty() ==> c.prefix != [] && c.prefix[0] == b) by {
          if HasChild(m, b) {
            assert ShapedChild(m.children[b].value, b as int);
          }
        }
        var (c1, prev) := Insert(c, key[ind..], v);
        InsertShaped(c, key[ind..], v);
        var r := CommonLen(c.prefix, key[ind..]);
        assert c1.prefix != [] && c1.prefix[0] == b by {
          if c != Empty() {
            assert r > 0;
            assert c1.prefix[0] == c.prefix[..r][0];
          }
        }
        ShapedSetChild(m1, b, c1);
      }
    }
  }

  /** Put adds one to Count exactly when the key was not stored before. */
  lemma InsertCount<V>(n: Node<V>, key: Key, v: V)
    requires Typed(n) && WellFormed(n)
    ensures |Iterate(Insert(n, key, v).0)| == |Iterate(n)| + if Get(n, key).None? then 1 else 0
  {
    var n' := Insert(n, key, v).0;
    InsertShaped(n, key, v);
    KeysAreStored(n);
    KeysAreStored(n');
    forall k ensures k in Keys(n') <==> k in Keys(n) + {key} {
      InsertGet(n, key, v, k);
    }
    assert Keys(n') == Keys(n) + {key};
  }

  /** Put applied to each (key, value) pair in turn, as the building constructors do. */
  function PutAll<V>(n: Node<V>, kvs: seq<(Key, V)>): (r: Node<V>)
    requires Typed(n)
    ensures Typed(r)
    decreases |kvs|
  {
    if kvs == [] then n else PutAll(Insert(n, kvs[0].0, kvs[0].1).0, kvs[1..])
  }

  /** The keys of a list of pairs. */
  ghost function PairKeys<V>(kvs: seq<(Key, V)>): set<Key>
  {
    set i | 0 <= i < |kvs| :: kvs[i].0
  }

  lemma PairKeysCons<V>(kvs: seq<(Key, V)>)
    requires kvs != []
    ensures PairKeys(kvs) == {kvs[0].0} + PairKeys(kvs[1..])
  {
    forall k | k in PairKeys(kvs) ensures k in {kvs[0].0} + PairKeys(kvs[1..]) {
      var i :| 0 <= i < |kvs| && kvs[i].0 == k;
      if i > 0 {
        assert kvs[1..][i - 1].0 == k;
      }
    }
    forall k | k in PairKeys(kvs[1..]) ensures k in PairKeys(kvs) {
      var i :| 0 <= i < |kvs[1..]| && kvs[1..][i].0 == k;
      assert kvs[i + 1].0 == k;
    }
  }

  /** Put adds its key to the keys Iterate reports, and nothing else. */
  lemma InsertKeys<V>(n: Node<V>, key: Key, v: V)
    requires Typed(n) && WellFormed(n)
    ensures Keys(Insert(n, key, v).0) == Keys(n) + {key}
  {
    var n1 := Insert(n, key, v).0;
    InsertShaped(n, key, v);
    KeysAreStored(n);
    KeysAreStored(n1);
    forall k ensures k in Keys(n1) <==> k in Keys(n) + {key} {
      InsertGet(n, key, v, k);
    }
  }

  /**
    Putting a list of pairs into a well-formed tree leaves it well formed,
    and Count becomes the number of distinct keys among those stored before
    and those Put.
  */
  lemma {:induction false} PutAllCount<V>(n: Node<V>, kvs: seq<(Key, V)>)
    requires Typed(n) && WellFormed(n)
    ensures WellFormed(PutAll(n, kvs))
    ensures |Iterate(PutAll(n, kvs))| == |Keys(n) + PairKeys(kvs)|
    decreases |kvs|
  {
    if kvs == [] {
      assert |Iterate(n)| == |Keys(n) + PairKeys(kvs)| by {
        KeysAreStored(n);
        assert PairKeys(kvs) == {};
        assert Keys(n) + {} == Keys(n);
      }
    } else {
      var n1 := Insert(n, kvs[0].0, kvs[0].1).0;
      assert WellFormed(n1) by {
        InsertShaped(n, kvs[0].0, kvs[0].1);
      }
      assert Keys(n1) + PairKeys(kvs[1..]) == Keys(n) + PairKeys(kvs) by {
        InsertKeys(n, kvs[0].0, kvs[0].1);
        PairKeysCons(kvs);
      }
      PutAllCount(n1, kvs[1..]);
    }
  }

  /**
    The Go method on a node value, statement by statement: the common-prefix
    loop, then the branches, each field assignment becoming a new node value.
  */
  method PutNode<V>(n: Node<V>, newPrefix: Key, val: V) returns (t: Node<V>, oldValue: Option<V>)
    requires Typed(n)
    ensures (t, oldValue) == Insert(n, newPrefix, val)
    decreases Size(n), if n == Empty() then 0 else 1
  {
    var curPrefix := n.prefix;
    var ind := 0;
    while ind < |curPrefix| && ind < |newPrefix| && curPrefix[ind] == newPrefix[ind]
      invariant ind <= |curPrefix| && ind <= |newPrefix|
      invariant curPrefix[..ind] == newPrefix[..ind]
    {
      ind := ind + 1;
    }
    CommonLenUnique(curPrefix, newPrefix, ind);
    t := n;
    oldValue := None;
    if ind == |curPrefix| {
      if ind == |newPrefix| {
        oldValue := t.value;
        t := t.(value := Some(val));
      } else if |t.prefix| == 0 && t.children == [] && t.value.None? {
        t := t.(prefix := newPrefix, value := Some(val));
      } else {
        var b := newPrefix[ind];
        var (t1, c) := ChildOrCreate(t, b);
        if HasChild(n, b) {
          ChildSmaller(n, b);
        }
        var c1;
        c1, oldValue := PutNode(c, newPrefix[ind..], val);
        t := t1.(children := t1.children[b := Some(c1)]);
      }
    } else {
      var newChild := Node(curPrefix[ind..], t.value, t.children);
      t := Node(curPrefix[..ind], None, NoSlots()[newChild.prefix[0] := Some(newChild)]);
      if ind == |newPrefix| {
        t := t.(value := Some(val));
      } else {
        var b := newPrefix[ind];
        var (t1, c) := ChildOrCreate(t, b);
        var c1;
        c1, oldValue := PutNode(c, newPrefix[ind..], val);
        t := t1.(children := t1.children[b := Some(c1)]);
      }
    }
  }

  /**
    The handle `*Trie`: the root node, whose fields Put assigns in place.
    The nodes below the root are values.
  */
  class Trie<V> {
    var prefix: Key
    var value: Option<V>
    var children: seq<Option<Node<V>>>

    /** The tree rooted at this handle. */
    function Tree(): Node<V>
      reads this
    {
      Node(prefix, value, children)
    }

    /** `&Trie{}` */
    constructor ()
      ensures Tree() == Empty() && WellFormed(Tree())
    {
      prefix, value, children := [], None, [];
    }

    /**
      `Put(newPrefix, val)`: afterwards the key maps to `val`, every other key
      is unchanged, the old value (or nil) is returned, Count grows by one
      exactly when the key is new, and a well-formed tree stays well formed.
    */
    method Put(newPrefix: Key, val: V) returns (oldValue: Option<V>)
      requires Typed(Tree())
      modifies this
      ensures Typed(Tree())
      ensures Tree() == Insert(old(Tree()), newPrefix, val).0
      ensures oldValue == Get(old(Tree()), newPrefix)
      ensures forall k :: Get(Tree(), k) == if k == newPrefix then Some(val) else Get(old(Tree()), k)
      ensures WellFormed(old(Tree())) ==> WellFormed(Tree())
      ensures WellFormed(old(Tree())) ==>
        |Iterate(Tree())| == |Iterate(old(Tree()))| + if oldValue.None? then 1 else 0
    {
      ghost var before := Tree();
      var t;
      t, oldValue := PutNode(Tree(), newPrefix, val);
      prefix, value, children := t.prefix, t.value, t.children;
      assert Tree() == t;
      forall k ensures Get(Tree(), k) == if k == newPrefix then Some(val) else Get(before, k) {
        InsertGet(before, newPrefix, val, k);
      }
      InsertGet(before, newPrefix, val, newPrefix);
      if WellFormed(before) {
        InsertShaped(before, newPrefix, val);
        InsertCount(before, newPrefix, val);
      }
    }
  }
}
