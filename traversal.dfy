/**
  Depth-first enumeration of the stored values (`Iterate`) and `Count`.

  `Iterate` calls its callback once per node that holds a value, passing the
  concatenation of the prefixes from the root down to that node; the node's
  own value comes before its descendants and children are visited in
  ascending slot order.  The callback is modelled by the sequence of
  (key, value) pairs it receives, in order.
*/
module Traversal {
  import opened Wrappers
  import opened Radix
  import opened Lookup

  /** `iterate(prefix, callback)`: `pre` is the key of the node's parent. */
  function Entries<V>(n: Node<V>, pre: Key): seq<(Key, V)>
    decreases n, 1
  {
    var key := pre + n.prefix;
    (if n.value.Some? then [(key, n.value.value)] else []) + SlotEntries(n, key, 0)
  }

  /** The `for i := range t.Children` loop of `iterate`, from slot `i` on. */
  function SlotEntries<V>(n: Node<V>, key: Key, i: nat): seq<(Key, V)>
    decreases n, 0, |n.children| - i
  {
    if i >= |n.children| then []
    else (if n.children[i].Some? then Entries(n.children[i].value, key) else []) + SlotEntries(n, key, i + 1)
  }

  /** `Iterate(callback)`: the calls the callback receives, in order. */
  function Iterate<V>(n: Node<V>): seq<(Key, V)>
  {
    Entries(n, [])
  }

  /** Byte-wise lexicographic order; a proper prefix comes first. */
  predicate KeyLess(a: Key, b: Key)
  {
    if a == [] then b != []
    else b != [] && (a[0] < b[0] || (a[0] == b[0] && KeyLess(a[1..], b[1..])))
  }

  /** Keys strictly increase along the sequence (so none is repeated). */
  predicate Ascending<V>(s: seq<(Key, V)>)
  {
    forall i, j | 0 <= i < j < |s| :: KeyLess(s[i].0, s[j].0)
  }

  /** The set of keys reported by Iterate. */
  ghost function Keys<V>(n: Node<V>): set<Key>
  {
    KeySet(Iterate(n))
  }

  // ---- the order on keys ----

  lemma {:induction false} KeyLessIrreflexive(a: Key)
    ensures !KeyLess(a, a)
  {
    if a != [] {
      KeyLessIrreflexive(a[1..]);
    }
  }

  lemma {:induction false} KeyLessProperPrefix(a: Key, b: Key)
    requires a <= b && |a| < |b|
    ensures KeyLess(a, b)
  {
    if a != [] {
      KeyLessProperPrefix(a[1..], b[1..]);
    }
  }

  lemma {:induction false} KeyLessAt(a: Key, b: Key, m: nat)
    requires m < |a| && m < |b| && a[..m] == b[..m] && a[m] < b[m]
    ensures KeyLess(a, b)
  {
    if m > 0 {
      assert a[0] == a[..m][0] && b[0] == b[..m][0];
      assert a[1..][..m - 1] == a[..m][1..] && b[1..][..m - 1] == b[..m][1..];
      KeyLessAt(a[1..], b[1..], m - 1);
    }
  }

  lemma AscendingConcat<V>(a: seq<(Key, V)>, b: seq<(Key, V)>)
    requires Ascending(a) && Ascending(b)
    requires forall x, y | x in a && y in b :: KeyLess(x.0, y.0)
    ensures Ascending(a + b)
  {
    var s := a + b;
    forall i, j | 0 <= i < j < |s|
      ensures KeyLess(s[i].0, s[j].0)
    {
      if j < |a| {
        assert s[i] == a[i] && s[j] == a[j];
      } else if i >= |a| {
        assert s[i] == b[i - |a|] && s[j] == b[j - |a|];
      } else {
        assert s[i] in a && s[j] in b;
      }
    }
  }

  // ---- membership in the slot loop ----

  lemma {:induction false} SlotEntriesFrom<V>(n: Node<V>, key: Key, i: nat, e: (Key, V))
    requires e in SlotEntries(n, key, i)
    ensures exists j | i <= j < |n.children| :: n.children[j].Some? && e in Entries(n.children[j].value, key)
    decreases |n.children| - i
  {
    if !(n.children[i].Some? && e in Entries(n.children[i].value, key)) {
      SlotEntriesFrom(n, key, i + 1, e);
    }
  }

  lemma {:induction false} SlotEntriesHas<V>(n: Node<V>, key: Key, i: nat, j: nat, e: (Key, V))
    requires i <= j < |n.children| && n.children[j].Some? && e in Entries(n.children[j].value, key)
    ensures e in SlotEntries(n, key, i)
    decreases j - i
  {
    if i < j {
      SlotEntriesHas(n, key, i + 1, j, e);
    }
  }

  // ---- the keys that are reported ----

  /** Every key reported below a node starts with the path to that node. */
  lemma {:induction false} EntryExtendsPath<V>(n: Node<V>, pre: Key, e: (Key, V))
    requires e in Entries(n, pre)
    ensures pre + n.prefix <= e.0
    decreases n
  {
    var key := pre + n.prefix;
    if e in SlotEntries(n, key, 0) {
      SlotEntriesFrom(n, key, 0, e);
      var j :| 0 <= j < |n.children| && n.children[j].Some? && e in Entries(n.children[j].value, key);
      EntryExtendsPath(n.children[j].value, key, e);
    }
  }

  /** In a well-shaped node, keys from slot `i` on continue the path with a byte `>= i`. */
  lemma SlotEntryKey<V>(n: Node<V>, key: Key, i: nat, e: (Key, V))
    requires Shaped(n) && e in SlotEntries(n, key, i)
    ensures key <= e.0 && |e.0| > |key| && e.0[|key|] as int >= i
  {
    SlotEntriesFrom(n, key, i, e);
    var j :| i <= j < |n.children| && n.children[j].Some? && e in Entries(n.children[j].value, key);
    var c := n.children[j].value;
    EntryExtendsPath(c, key, e);
    assert e.0[|key|] == (key + c.prefix)[|key|];
  }

  /** The key and value passed to the callback are found by Get. */
  lemma {:induction false} EntryStored<V>(n: Node<V>, pre: Key, e: (Key, V))
    requires Shaped(n) && e in Entries(n, pre)
    ensures pre <= e.0 && Get(n, e.0[|pre|..]) == Some(e.1)
    decreases n
  {
    var key := pre + n.prefix;
    EntryExtendsPath(n, pre, e);
    var q := e.0[|pre|..];
    if e in SlotEntries(n, key, 0) {
      SlotEntriesFrom(n, key, 0, e);
      var j :| 0 <= j < |n.children| && n.children[j].Some? && e in Entries(n.children[j].value, key);
      var c := n.children[j].value;
      assert Get(c, e.0[|key|..]) == Some(e.1) by {
        EntryStored(c, key, e);
      }
      assert Get(n, q) == Get(c, e.0[|key|..]) by {
        EntryExtendsPath(c, key, e);
        assert q[..|n.prefix|] == n.prefix;
        assert e.0[|key|] == (key + c.prefix)[|key|];
        assert q[|n.prefix|..] == e.0[|key|..];
        GetUnfold(n, q);
      }
    } else {
      assert e == (key, n.value.value) && q == n.prefix;
      GetUnfold(n, q);
    }
  }

  /** Every stored key is passed to the callback with its value. */
  lemma {:induction false} StoredIsEntry<V>(n: Node<V>, pre: Key, k: Key)
    requires Get(n, k).Some?
    ensures (pre + k, Get(n, k).value) in Entries(n, pre)
    decreases n
  {
    var key := pre + n.prefix;
    GetUnfold(n, k);
    if |k| > |n.prefix| {
      var b := k[|n.prefix|];
      var c := ChildAt(n, b);
      StoredIsEntry(c, key, k[|n.prefix|..]);
      assert key + k[|n.prefix|..] == pre + k;
      SlotEntriesHas(n, key, 0, b as int, (pre + k, Get(n, k).value));
    } else {
      assert k == n.prefix;
    }
  }

  /**
    The pairs reported by Iterate are exactly the stored keys with their
    values: Get finds every key that Iterate enumerates, and nothing else.
  */
  lemma IterateIsContents<V>(n: Node<V>, k: Key, v: V)
    requires Shaped(n)
    ensures (k, v) in Iterate(n) <==> Get(n, k) == Some(v)
  {
    if (k, v) in Iterate(n) {
      EntryStored(n, [], (k, v));
      assert k[0..] == k;
    }
    if Get(n, k) == Some(v) {
      StoredIsEntry(n, [], k);
      assert [] + k == k;
    }
  }

  // ---- order ----

  lemma {:induction false} EntriesAscending<V>(n: Node<V>, pre: Key)
    requires Shaped(n)
    ensures Ascending(Entries(n, pre))
    decreases n, 1
  {
    var key := pre + n.prefix;
    var own: seq<(Key, V)> := if n.value.Some? then [(key, n.value.value)] else [];
    SlotEntriesAscending(n, key, 0);
    forall x, y | x in own && y in SlotEntries(n, key, 0)
      ensures KeyLess(x.0, y.0)
    {
      SlotEntryKey(n, key, 0, y);
      KeyLessProperPrefix(key, y.0);
    }
    AscendingConcat(own, SlotEntries(n, key, 0));
  }

  lemma {:induction false} SlotEntriesAscending<V>(n: Node<V>, key: Key, i: nat)
    requires Shaped(n)
    ensures Ascending(SlotEntries(n, key, i))
    decreases n, 0, |n.children| - i
  {
    if i < |n.children| {
      var here: seq<(Key, V)> := if n.children[i].Some? then Entries(n.children[i].value, key) else [];
      SlotEntriesAscending(n, key, i + 1);
      if n.children[i].Some? {
        var c := n.children[i].value;
        EntriesAscending(c, key);
        forall x, y | x in here && y in SlotEntries(n, key, i + 1)
          ensures KeyLess(x.0, y.0)
        {
          EntryExtendsPath(c, key, x);
          SlotEntryKey(n, key, i + 1, y);
          assert x.0[|key|] == (key + c.prefix)[|key|];
          assert x.0[..|key|] == key == y.0[..|key|];
          KeyLessAt(x.0, y.0, |key|);
        }
      }
      AscendingConcat(here, SlotEntries(n, key, i + 1));
    }
  }

  /**
    Iterate reports keys in strictly increasing byte-wise order: a node's own
    value before its descendants, slot `i` before slot `i + 1`; hence no key
    is reported twice.
  */
  lemma IterateAscending<V>(n: Node<V>)
    requires Shaped(n)
    ensures Ascending(Iterate(n))
  {
    EntriesAscending(n, []);
  }

  /** The keys occurring in a sequence of entries. */
  ghost function KeySet<V>(s: seq<(Key, V)>): set<Key>
  {
    set e | e in s :: e.0
  }

  lemma KeySetCons<V>(s: seq<(Key, V)>)
    requires s != []
    ensures KeySet(s) == {s[0].0} + KeySet(s[1..])
  {
    assert forall e | e in s :: e == s[0] || e in s[1..];
  }

  lemma AscendingTail<V>(s: seq<(Key, V)>)
    requires s != [] && Ascending(s)
    ensures Ascending(s[1..])
    ensures s[0].0 !in KeySet(s[1..])
  {
    var rest := s[1..];
    forall i, j | 0 <= i < j < |rest|
      ensures KeyLess(rest[i].0, rest[j].0)
    {
      assert rest[i] == s[i + 1] && rest[j] == s[j + 1];
    }
    if s[0].0 in KeySet(rest) {
      var e :| e in rest && e.0 == s[0].0;
      var j :| 0 <= j < |rest| && rest[j] == e;
      assert KeyLess(s[0].0, s[j + 1].0);
      KeyLessIrreflexive(s[0].0);
    }
  }

  /** Strictly ascending keys are pairwise distinct: one key per entry. */
  lemma {:induction false} AscendingKeyCount<V>(s: seq<(Key, V)>)
    requires Ascending(s)
    ensures |KeySet(s)| == |s|
  {
    if s != [] {
      AscendingTail(s);
      AscendingKeyCount(s[1..]);
      KeySetCons(s);
    }
  }

  /** The keys Iterate reports are the stored keys, and there are as many as calls. */
  lemma KeysAreStored<V>(n: Node<V>)
    requires Shaped(n)
    ensures forall k :: k in Keys(n) <==> Get(n, k).Some?
    ensures |Keys(n)| == |Iterate(n)|
  {
    forall k
      ensures k in Keys(n) <==> Get(n, k).Some?
    {
      if k in Keys(n) {
        var e :| e in Iterate(n) && e.0 == k;
        IterateIsContents(n, e.0, e.1);
      }
      if Get(n, k).Some? {
        IterateIsContents(n, k, Get(n, k).value);
      }
    }
    IterateAscending(n);
    AscendingKeyCount(Iterate(n));
  }

  // ---- Count ----

  lemma {:induction false} EntriesLength<V>(n: Node<V>, a: Key, b: Key)
    ensures |Entries(n, a)| == |Entries(n, b)|
    decreases n, 1
  {
    SlotEntriesLength(n, a + n.prefix, b + n.prefix, 0);
  }

  lemma {:induction false} SlotEntriesLength<V>(n: Node<V>, a: Key, b: Key, i: nat)
    ensures |SlotEntries(n, a, i)| == |SlotEntries(n, b, i)|
    decreases n, 0, |n.children| - i
  {
    if i < |n.children| {
      if n.children[i].Some? {
        EntriesLength(n.children[i].value, a, b);
      }
      SlotEntriesLength(n, a, b, i + 1);
    }
  }

  /**
    `iterate(prefix, callback)` as the Go method runs it: the node's value
    is reported under `prefix + t.Prefix`, then the loop over the 256 slots
    recurses into every present child.  The callback calls are collected in
    `visited`, in order, and they are exactly `Entries`.
  */
  method IterateFrom<V>(n: Node<V>, prefix: Key) returns (visited: seq<(Key, V)>)
    ensures visited == Entries(n, prefix)
    decreases n
  {
    var curPrefix := prefix + n.prefix;
    visited := [];
    if n.value.Some? {
      visited := [(curPrefix, n.value.value)];
    }
    if |n.children| != 0 {
      for i := 0 to |n.children|
        invariant visited + SlotEntries(n, curPrefix, i) == Entries(n, prefix)
      {
        if n.children[i].Some? {
          var sub := IterateFrom(n.children[i].value, curPrefix);
          assert visited + SlotEntries(n, curPrefix, i) == (visited + sub) + SlotEntries(n, curPrefix, i + 1);
          visited := visited + sub;
        } else {
          assert SlotEntries(n, curPrefix, i) == SlotEntries(n, curPrefix, i + 1);
        }
      }
      assert SlotEntries(n, curPrefix, |n.children|) == [];
    }
    assert visited + [] == visited;
  }

  /**
    `Count`: the number of nodes holding a value, which is the number of
    callback calls Iterate makes; a nil trie counts 0.
  */
  method Count<V>(t: Option<Node<V>>) returns (count: nat)
    ensures t.None? ==> count == 0
    ensures t.Some? ==> count == |Iterate(t.value)|
    decreases t
  {
    if t.None? {
      return 0;
    }
    var n := t.value;
    count := 0;
    if n.value.Some? {
      count := count + 1;
    }
    assert [] + n.prefix == n.prefix;
    if |n.children| != 0 {
      for i := 0 to |n.children|
        invariant count + |SlotEntries(n, n.prefix, i)| == |Iterate(n)|
      {
        if n.children[i].Some? {
          var c := Count(n.children[i]);
          EntriesLength(n.children[i].value, [], n.prefix);
          count := count + c;
        }
      }
    }
  }
}
