/**
  The operations that follow a mask down one path and report what lies on it
  (`GetAll`) or below its end (`SubTrie`).
*/
module Paths {
  import opened Wrappers
  import opened Radix
  import opened Lookup
  import opened Insertion

  /**
    `GetAll(mask)`: the values on the path of `mask`, root first.  A node
    whose prefix is not fully matched contributes nothing and ends the walk;
    a matched node contributes its value and continues into the child at the
    next mask byte, if any.  (Go returns nil or an empty slice; both are the
    empty sequence here.)
  */
  function GetAll<V>(n: Node<V>, mask: Key): seq<V>
    decreases n
  {
    var ind := CommonLen(n.prefix, mask);
    if ind == |n.prefix| then
      var own := if n.value.Some? then [n.value.value] else [];
      if ind < |mask| && HasChild(n, mask[ind]) then own + GetAll(n.children[mask[ind]].value, mask[ind..])
      else own
    else []
  }

  /**
    `GetAll` as the Go method runs it: a loop counts the bytes of the node
    prefix matched by the mask, then the node's value is collected and the
    walk goes on in the child at the next mask byte.
  */
  method GetAllNode<V>(n: Node<V>, mask: Key) returns (res: seq<V>)
    ensures res == GetAll(n, mask)
    decreases n
  {
    var ind := 0;
    while ind < |mask| && ind < |n.prefix| && mask[ind] == n.prefix[ind]
      invariant ind <= |mask| && ind <= |n.prefix|
      invariant n.prefix[..ind] == mask[..ind]
    {
      ind := ind + 1;
    }
    CommonLenUnique(n.prefix, mask, ind);
    if ind != |n.prefix| {
      return [];
    }
    res := [];
    if n.value.Some? {
      res := res + [n.value.value];
    }
    if ind < |mask| && HasChild(n, mask[ind]) {
      var rest := GetAllNode(ChildAt(n, mask[ind]), mask[ind..]);
      res := res + rest;
    }
  }

  /** Lookup in `n`, as a function of the key. */
  function Getter<V>(n: Node<V>): Key -> Option<V>
  {
    k => Get(n, k)
  }

  /**
    The values `lookup` gives for the prefixes `mask[..j]`, `mask[..j + 1]`,
    ..., `mask`, shortest first.
  */
  ghost function Collect<V>(lookup: Key -> Option<V>, mask: Key, j: nat): seq<V>
    requires j <= |mask|
    decreases |mask| - j
  {
    var here := lookup(mask[..j]);
    (if here.Some? then [here.value] else []) + if j == |mask| then [] else Collect(lookup, mask, j + 1)
  }

  /** The reference for GetAll: the values `n` stores under `mask[..j]`, ..., `mask`, shortest first. */
  ghost function PrefixValues<V>(n: Node<V>, mask: Key, j: nat): seq<V>
    requires j <= |mask|
  {
    Collect(Getter(n), mask, j)
  }

  lemma {:induction false} CollectSkip<V>(lookup: Key -> Option<V>, mask: Key, j: nat, j2: nat)
    requires j <= j2 <= |mask|
    requires forall i | j <= i < j2 :: lookup(mask[..i]).None?
    ensures Collect(lookup, mask, j) == Collect(lookup, mask, j2)
    decreases j2 - j
  {
    if j < j2 {
      CollectSkip(lookup, mask, j + 1, j2);
    }
  }

  lemma {:induction false} CollectNone<V>(lookup: Key -> Option<V>, mask: Key, j: nat)
    requires j <= |mask|
    requires forall i | j <= i <= |mask| :: lookup(mask[..i]).None?
    ensures Collect(lookup, mask, j) == []
    decreases |mask| - j
  {
    if j < |mask| {
      CollectNone(lookup, mask, j + 1);
    }
  }

  /** `a` on the prefixes of `mask` longer than `p` gives what `b` gives on those of `rest`, `p` bytes shorter. */
  ghost predicate Agree<V>(a: Key -> Option<V>, mask: Key, b: Key -> Option<V>, rest: Key, p: nat)
    requires p + |rest| == |mask|
  {
    forall i | p < i <= |mask| :: a(mask[..i]) == b(rest[..i - p])
  }

  /** Two lookups that agree on the prefixes of two masks, shifted by `p`, collect the same values. */
  lemma {:induction false} CollectShift<V>(a: Key -> Option<V>, mask: Key, b: Key -> Option<V>, rest: Key, p: nat, j: nat)
    requires p < j <= |mask| && p + |rest| == |mask|
    requires Agree(a, mask, b, rest, p)
    ensures Collect(a, mask, j) == Collect(b, rest, j - p)
    decreases |mask| - j
  {
    if j < |mask| {
      CollectShift(a, mask, b, rest, p, j + 1);
    }
  }

  lemma PrefixValuesSkip<V>(n: Node<V>, mask: Key, j: nat, j2: nat)
    requires j <= j2 <= |mask|
    requires forall i | j <= i < j2 :: Get(n, mask[..i]).None?
    ensures PrefixValues(n, mask, j) == PrefixValues(n, mask, j2)
  {
    CollectSkip(Getter(n), mask, j, j2);
  }

  lemma PrefixValuesNone<V>(n: Node<V>, mask: Key, j: nat)
    requires j <= |mask|
    requires forall i | j <= i <= |mask| :: Get(n, mask[..i]).None?
    ensures PrefixValues(n, mask, j) == []
  {
    CollectNone(Getter(n), mask, j);
  }

  /** Below the node's prefix, each prefix of the mask is looked up in the child. */
  lemma ChildAgrees<V>(n: Node<V>, mask: Key)
    requires n.prefix <= mask && |n.prefix| < |mask| && HasChild(n, mask[|n.prefix|])
    ensures Agree(Getter(n), mask, Getter(ChildAt(n, mask[|n.prefix|])), mask[|n.prefix|..], |n.prefix|)
  {
    var p := |n.prefix|;
    var c, rest := ChildAt(n, mask[p]), mask[p..];
    forall i | p < i <= |mask|
      ensures Getter(n)(mask[..i]) == Getter(c)(rest[..i - p])
    {
      calc {
        Getter(n)(mask[..i]);
        Get(n, mask[..i]);
        { GetInputPrefix(n, mask, i); }
        Get(c, rest[..i - p]);
        Getter(c)(rest[..i - p]);
      }
    }
  }

  /** Below the node's prefix, the prefixes of the mask are looked up in the child. */
  lemma PrefixValuesChild<V>(n: Node<V>, mask: Key, j: nat)
    requires n.prefix <= mask && |n.prefix| < j <= |mask| && HasChild(n, mask[|n.prefix|])
    ensures PrefixValues(n, mask, j) ==
      PrefixValues(ChildAt(n, mask[|n.prefix|]), mask[|n.prefix|..], j - |n.prefix|)
  {
    var p := |n.prefix|;
    var c, rest := ChildAt(n, mask[p]), mask[p..];
    calc {
      PrefixValues(n, mask, j);
      Collect(Getter(n), mask, j);
      { ChildAgrees(n, mask);
        CollectShift(Getter(n), mask, Getter(c), rest, p, j); }
      Collect(Getter(c), rest, j - p);
      PrefixValues(c, rest, j - p);
    }
  }

  /** Off the node's prefix no prefix of the mask is stored. */
  lemma OffPathValues<V>(n: Node<V>, mask: Key)
    requires !(n.prefix <= mask)
    ensures PrefixValues(n, mask, 0) == []
  {
    forall i | 0 <= i <= |mask|
      ensures Get(n, mask[..i]).None?
    {
      GetUnfold(n, mask[..i]);
    }
    PrefixValuesNone(n, mask, 0);
  }

  /** Along the node's prefix only the prefix itself can be stored, with the node's own value. */
  lemma OnPathValues<V>(n: Node<V>, mask: Key)
    requires n.prefix <= mask
    ensures PrefixValues(n, mask, 0) ==
      (if n.value.Some? then [n.value.value] else []) +
      (if |n.prefix| == |mask| then [] else PrefixValues(n, mask, |n.prefix| + 1))
  {
    var p := n.prefix;
    forall i | 0 <= i < |p|
      ensures Get(n, mask[..i]).None?
    {
      GetUnfold(n, mask[..i]);
    }
    PrefixValuesSkip(n, mask, 0, |p|);
    assert Get(n, mask[..|p|]) == n.value by {
      assert mask[..|p|] == p;
      GetUnfold(n, p);
    }
  }

  /** Without a child at the next mask byte nothing longer than the prefix is stored. */
  lemma NoChildValues<V>(n: Node<V>, mask: Key)
    requires n.prefix <= mask && |n.prefix| < |mask| && !HasChild(n, mask[|n.prefix|])
    ensures PrefixValues(n, mask, |n.prefix| + 1) == []
  {
    forall i | |n.prefix| + 1 <= i <= |mask|
      ensures Get(n, mask[..i]).None?
    {
      GetInputPrefix(n, mask, i);
    }
    PrefixValuesNone(n, mask, |n.prefix| + 1);
  }

  /** A child stores nothing under the empty key, its prefix being non-empty. */
  lemma ChildEmptyValues<V>(n: Node<V>, mask: Key)
    requires Shaped(n) && n.prefix <= mask && |n.prefix| < |mask| && HasChild(n, mask[|n.prefix|])
    ensures
      var c, rest := ChildAt(n, mask[|n.prefix|]), mask[|n.prefix|..];
      PrefixValues(c, rest, 0) == PrefixValues(c, rest, 1)
  {
    var b := mask[|n.prefix|];
    var c, rest := ChildAt(n, b), mask[|n.prefix|..];
    assert ShapedChild(n.children[b].value, b as int);
    assert Get(c, rest[..0]).None? by {
      GetUnfold(c, rest[..0]);
    }
    PrefixValuesSkip(c, rest, 0, 1);
  }

  /**
    GetAll returns, shortest first, the value of every stored key that is a
    prefix of the mask (the empty key included), and nothing else.
  */
  lemma {:induction false} GetAllIsPrefixValues<V>(n: Node<V>, mask: Key)
    requires Shaped(n)
    ensures GetAll(n, mask) == PrefixValues(n, mask, 0)
    decreases n
  {
    var p := n.prefix;
    CommonLenPrefix(p, mask);
    if !(p <= mask) {
      OffPathValues(n, mask);
    } else {
      OnPathValues(n, mask);
      if |p| < |mask| {
        var b := mask[|p|];
        if HasChild(n, b) {
          var c, rest := ChildAt(n, b), mask[|p|..];
          assert GetAll(c, rest) == PrefixValues(n, mask, |p| + 1) by {
            assert ShapedChild(n.children[b].value, b as int);
            GetAllIsPrefixValues(c, rest);
            ChildEmptyValues(n, mask);
            PrefixValuesChild(n, mask, |p| + 1);
          }
        } else {
          NoChildValues(n, mask);
        }
      }
    }
  }

  /**
    Where the walk of `subTrie` stops: the node at which the mask ends and
    the number of mask bytes consumed above it (`originalMaskInd`); the rest
    of the mask, `len(mask) - skip` bytes, is `ind`, the part of the node's
    prefix it covers.
  */
  datatype Spot<V> = Spot(node: Node<V>, skip: nat)

  /**
    The walk of `subTrie`: follows the mask while it covers each node's whole
    prefix; stops at the node whose prefix holds the end of the mask, or fails
    (`nil, false`) when the mask diverges from a prefix or the next child is
    missing.
  */
  function Locate<V>(n: Node<V>, mask: Key): (r: Option<Spot<V>>)
    ensures r.Some? ==> r.value.skip <= |mask| && |mask| - r.value.skip <= |r.value.node.prefix|
    decreases n
  {
    var ind := CommonLen(n.prefix, mask);
    if ind == |mask| then Some(Spot(n, 0))
    else if ind == |n.prefix| && HasChild(n, mask[ind]) then
      var r := Locate(n.children[mask[ind]].value, mask[ind..]);
      if r.None? then None else Some(Spot(r.value.node, ind + r.value.skip))
    else None
  }

  /** Where the walk stops, the rest of the mask is a prefix of that node's prefix. */
  lemma {:induction false} LocatePrefix<V>(n: Node<V>, mask: Key)
    requires Locate(n, mask).Some?
    ensures var s := Locate(n, mask).value; mask[s.skip..] <= s.node.prefix
    decreases n
  {
    var ind := CommonLen(n.prefix, mask);
    if ind == |mask| {
      assert mask[0..] == mask[..ind];
    } else {
      var rest := mask[ind..];
      var c := ChildAt(n, mask[ind]);
      LocatePrefix(c, rest);
      var s := Locate(c, rest).value;
      assert rest[s.skip..] == mask[ind + s.skip..];
    }
  }

  /** Keys extending the mask are looked up, below Locate's node, by the rest of the mask. */
  lemma {:induction false} LocateGet<V>(n: Node<V>, mask: Key, k: Key)
    requires Locate(n, mask).Some?
    ensures var s := Locate(n, mask).value;
      Get(n, mask + k) == Get(s.node, mask[s.skip..] + k)
    decreases n
  {
    var p := n.prefix;
    var ind := CommonLen(p, mask);
    var s0 := Locate(n, mask).value;
    if ind == |mask| {
      assert s0.node == n && s0.skip == 0;
      assert mask[0..] == mask;
    } else {
      var c := ChildAt(n, mask[ind]);
      var rest := mask[ind..];
      var s := Locate(c, rest).value;
      assert s0.node == s.node && s0.skip == ind + s.skip by {
        LocateDescend(n, mask);
      }
      GetBelowMask(n, mask, k);
      assert Get(c, rest + k) == Get(s.node, mask[ind + s.skip..] + k) by {
        LocateGet(c, rest, k);
        assert rest[s.skip..] == mask[ind + s.skip..];
      }
    }
  }

  /** A key extending a mask that covers the node's prefix is looked up in the child. */
  lemma GetBelowMask<V>(n: Node<V>, mask: Key, k: Key)
    requires CommonLen(n.prefix, mask) == |n.prefix| < |mask| && HasChild(n, mask[|n.prefix|])
    ensures Get(n, mask + k) == Get(ChildAt(n, mask[|n.prefix|]), mask[|n.prefix|..] + k)
  {
    var p := n.prefix;
    assert (mask + k)[..|p|] == mask[..|p|] == p;
    GetThroughChild(n, mask + k);
    assert (mask + k)[|p|..] == mask[|p|..] + k;
  }

  /** When the mask leaves the tree, no key extending it is stored. */
  lemma {:induction false} LocateNone<V>(n: Node<V>, mask: Key, k: Key)
    requires Locate(n, mask).None?
    ensures Get(n, mask + k) == None
    decreases n
  {
    var p := n.prefix;
    var ind := CommonLen(p, mask);
    if ind < |p| {
      assert Get(n, mask + k) == None by {
        assert (mask + k)[..ind] == mask[..ind];
        assert (mask + k)[ind] == mask[ind];
        assert !(p <= mask + k);
        GetUnfold(n, mask + k);
      }
    } else if HasChild(n, mask[ind]) {
      GetBelowMask(n, mask, k);
      LocateNone(ChildAt(n, mask[ind]), mask[ind..], k);
    } else {
      assert Get(n, mask + k) == None by {
        assert (mask + k)[..|p|] == p;
        assert (mask + k)[|p|] == mask[ind];
        GetUnfold(n, mask + k);
      }
    }
  }

  /**
    SubTrie's answer at a node reached after `originalMaskInd` bytes of
    `originalMask` were consumed above it, `mask` being the rest: with
    keepPrefix the result's prefix is the consumed bytes, the ones consumed
    below, and the prefix of the node where the mask ends.
  */
  function SubTrieBelow<V>(n: Node<V>, mask: Key, keepPrefix: bool, originalMask: Key, originalMaskInd: nat): Option<Node<V>>
    requires originalMaskInd + |mask| == |originalMask|
  {
    SubTrieOf(Locate(n, mask), keepPrefix, originalMask, originalMaskInd, |mask|)
  }

  /**
    The copy SubTrie returns for the spot where the walk stopped, `None`
    when it fell off the tree; `maskLen` bytes of the mask were left to
    match at the node the walk started from.
  */
  function SubTrieOf<V>(r: Option<Spot<V>>, keepPrefix: bool, originalMask: Key, originalMaskInd: nat, maskLen: nat): Option<Node<V>>
    requires originalMaskInd + maskLen == |originalMask|
    requires r.Some? ==> r.value.skip <= maskLen && maskLen - r.value.skip <= |r.value.node.prefix|
  {
    if r.None? then None
    else
      var t, skip := r.value.node, r.value.skip;
      Some(Node(RootPrefix(keepPrefix, originalMask, originalMaskInd + skip, t.prefix, maskLen - skip), t.value, t.children))
  }

  /** Starting the walk `ind` bytes further down, with the spot found from there, gives the same copy. */
  lemma SubTrieOfShift<V>(r: Option<Spot<V>>, below: Option<Spot<V>>, keepPrefix: bool, originalMask: Key,
                          originalMaskInd: nat, maskLen: nat, ind: nat)
    requires originalMaskInd + maskLen == |originalMask| && ind <= maskLen
    requires below.Some? ==> below.value.skip <= maskLen - ind && maskLen - ind - below.value.skip <= |below.value.node.prefix|
    requires r.Some? <==> below.Some?
    requires below.Some? ==> r.value == Spot(below.value.node, ind + below.value.skip)
    ensures SubTrieOf(r, keepPrefix, originalMask, originalMaskInd, maskLen) ==
      SubTrieOf(below, keepPrefix, originalMask, originalMaskInd + ind, maskLen - ind)
  {
  }

  /**
    The root prefix of the result: the `consumed` mask bytes followed by the
    node's prefix, or the part of the node's prefix after the `cut` bytes
    the mask covers.
  */
  function RootPrefix(keepPrefix: bool, originalMask: Key, consumed: nat, p: Key, cut: nat): (r: Key)
    requires consumed <= |originalMask| && cut <= |p|
    ensures keepPrefix ==> r == originalMask[..consumed] + p
    ensures !keepPrefix ==> p == p[..cut] + r
  {
    if keepPrefix then originalMask[..consumed] + p else p[cut..]
  }

  /**
    `SubTrie(mask, keepPrefix)` with the prefix the documentation describes:
    a copy of the node where the mask ends, sharing its value and children.
    Without keepPrefix its prefix is the part of the node's prefix beyond the
    mask; with keepPrefix it is the consumed mask bytes followed by the
    node's whole prefix (`originalMask[:originalMaskInd] + t.Prefix`).
    `Some` is Go's `(subTrie, true)`, `None` is `(nil, false)`.
  */
  function SubTrie<V>(n: Node<V>, mask: Key, keepPrefix: bool): Option<Node<V>>
  {
    SubTrieBelow(n, mask, keepPrefix, mask, 0)
  }

  /** Locate passes through a node whose whole prefix the mask covers. */
  lemma LocateDescend<V>(n: Node<V>, mask: Key)
    requires CommonLen(n.prefix, mask) == |n.prefix| < |mask| && HasChild(n, mask[|n.prefix|])
    ensures var r := Locate(ChildAt(n, mask[|n.prefix|]), mask[|n.prefix|..]);
      && (Locate(n, mask).Some? <==> r.Some?)
      && (r.Some? ==> Locate(n, mask).value == Spot(r.value.node, |n.prefix| + r.value.skip))
  {
  }

  /** One level of the walk: the answer is the child's, for the rest of the mask. */
  lemma SubTrieBelowDescend<V>(n: Node<V>, mask: Key, keepPrefix: bool, originalMask: Key, originalMaskInd: nat, c: Node<V>, ind: nat)
    requires originalMaskInd + |mask| == |originalMask| && ind <= |mask|
    requires Locate(n, mask).Some? <==> Locate(c, mask[ind..]).Some?
    requires Locate(c, mask[ind..]).Some? ==> Locate(n, mask).value == Spot(Locate(c, mask[ind..]).value.node, ind + Locate(c, mask[ind..]).value.skip)
    ensures SubTrieBelow(n, mask, keepPrefix, originalMask, originalMaskInd) ==
      SubTrieBelow(c, mask[ind..], keepPrefix, originalMask, originalMaskInd + ind)
  {
    SubTrieOfShift(Locate(n, mask), Locate(c, mask[ind..]), keepPrefix, originalMask, originalMaskInd, |mask|, ind);
  }

  /**
    `subTrie(mask, keepPrefix, originalMask, originalMaskInd)` as the Go
    method runs it (the prefix loop, then stop, descend or fail), with the
    keepPrefix copy of `t.Prefix` placed at `originalMaskInd`, not at `ind`.
    `mask` is what is left of `originalMask` after `originalMaskInd` bytes,
    as in every call the walk makes.
  */
  method SubTrieWalk<V>(n: Node<V>, mask: Key, keepPrefix: bool, originalMask: Key, originalMaskInd: nat)
    returns (subTrie: Option<Node<V>>)
    requires originalMaskInd + |mask| == |originalMask|
    ensures subTrie == SubTrieBelow(n, mask, keepPrefix, originalMask, originalMaskInd)
    decreases n
  {
    var ind := 0;
    while ind < |mask| && ind < |n.prefix| && mask[ind] == n.prefix[ind]
      invariant ind <= |mask| && ind <= |n.prefix|
      invariant n.prefix[..ind] == mask[..ind]
    {
      ind := ind + 1;
    }
    CommonLenUnique(n.prefix, mask, ind);
    if ind == |mask| {
      var prefix := if keepPrefix then originalMask[..originalMaskInd] + n.prefix else n.prefix[ind..];
      assert SubTrieBelow(n, mask, keepPrefix, originalMask, originalMaskInd) == Some(Node(prefix, n.value, n.children)) by {
        assert Locate(n, mask) == Some(Spot(n, 0));
      }
      return Some(Node(prefix, n.value, n.children));
    }
    if ind == |n.prefix| && HasChild(n, mask[ind]) {
      subTrie := SubTrieWalk(ChildAt(n, mask[ind]), mask[ind..], keepPrefix, originalMask, originalMaskInd + ind);
      assert subTrie == SubTrieBelow(n, mask, keepPrefix, originalMask, originalMaskInd) by {
        LocateDescend(n, mask);
        SubTrieBelowDescend(n, mask, keepPrefix, originalMask, originalMaskInd, ChildAt(n, mask[ind]), ind);
      }
      return;
    }
    assert SubTrieBelow(n, mask, keepPrefix, originalMask, originalMaskInd) == None by {
      assert Locate(n, mask) == None;
    }
    return None;
  }

  /** `SubTrie(mask, keepPrefix)`: the walk from the root with nothing consumed yet. */
  method SubTrieFromRoot<V>(n: Node<V>, mask: Key, keepPrefix: bool) returns (subTrie: Option<Node<V>>)
    ensures subTrie == SubTrie(n, mask, keepPrefix)
  {
    subTrie := SubTrieWalk(n, mask, keepPrefix, mask, 0);
  }

  /**
    Without keepPrefix, the sub-trie stores the keys of the trie that start
    with the mask, the mask removed: `k` there holds what `mask + k` holds
    in the trie.
  */
  lemma SubTrieGet<V>(n: Node<V>, mask: Key, k: Key)
    requires SubTrie(n, mask, false).Some?
    ensures Get(SubTrie(n, mask, false).value, k) == Get(n, mask + k)
  {
    LocateGet(n, mask, k);
    LocatePrefix(n, mask);
    var s := Locate(n, mask).value;
    var rest := mask[s.skip..];
    assert SubTrie(n, mask, false).value == s.node.(prefix := s.node.prefix[|rest|..]);
    assert (rest + k)[..|rest|] == s.node.prefix[..|rest|];
    GetDropPrefix(s.node, |rest|, rest + k);
    assert (rest + k)[|rest|..] == k;
  }

  /** The kept prefix is the mask followed by the unkept one. */
  lemma SubTrieKeptPrefix<V>(n: Node<V>, mask: Key)
    ensures SubTrie(n, mask, true).Some? <==> SubTrie(n, mask, false).Some?
    ensures SubTrie(n, mask, true).Some? ==>
      SubTrie(n, mask, true).value == SubTrie(n, mask, false).value.(prefix := mask + SubTrie(n, mask, false).value.prefix)
  {
    if Locate(n, mask).Some? {
      LocatePrefix(n, mask);
      var s := Locate(n, mask).value;
      var t := s.node;
      var ind := |mask| - s.skip;
      assert SubTrie(n, mask, true).value == Node(mask[..s.skip] + t.prefix, t.value, t.children);
      assert SubTrie(n, mask, false).value == Node(t.prefix[ind..], t.value, t.children);
      assert mask + t.prefix[ind..] == mask[..s.skip] + t.prefix by {
        assert t.prefix == t.prefix[..ind] + t.prefix[ind..];
        assert mask == mask[..s.skip] + mask[s.skip..];
      }
    }
  }

  /**
    With keepPrefix, the sub-trie stores exactly the keys of the trie that
    start with the mask, under their original keys, and nothing else.
  */
  lemma SubTrieKeepGet<V>(n: Node<V>, mask: Key, k: Key)
    requires SubTrie(n, mask, true).Some?
    ensures Get(SubTrie(n, mask, true).value, k) == if mask <= k then Get(n, k) else None
  {
    SubTrieKeptPrefix(n, mask);
    var s := SubTrie(n, mask, true).value;
    var s' := SubTrie(n, mask, false).value;
    if mask <= k {
      assert s.(prefix := s.prefix[|mask|..]) == s';
      GetDropPrefix(s, |mask|, k);
      SubTrieGet(n, mask, k[|mask|..]);
      assert mask + k[|mask|..] == k;
    } else {
      GetUnfold(s, k);
      assert mask <= s.prefix;
    }
  }

  /**
    SubTrie fails (`nil, false`) only when no key extending the mask is
    stored.
  */
  lemma SubTrieNone<V>(n: Node<V>, mask: Key, k: Key)
    requires SubTrie(n, mask, false).None?
    ensures Get(n, mask + k) == None
  {
    LocateNone(n, mask, k);
  }

  // ---- the keepPrefix copy as written ----

  /** `make([]byte, n)`: `n` zero bytes. */
  function Zeros(n: nat): (z: Key)
    ensures |z| == n && forall i | 0 <= i < n :: z[i] == 0
  {
    seq(n, i => 0)
  }

  /**
    Go's `copy(dst[off:], src)`: overwrites `min(len(src), len(dst) - off)`
    bytes of `dst` from offset `off`, leaving the rest and the length alone.
  */
  function CopyAt(dst: Key, off: nat, src: Key): (r: Key)
    requires off <= |dst|
    ensures |r| == |dst|
    ensures forall i | 0 <= i < |r| :: r[i] == if off <= i < off + |src| then src[i - off] else dst[i]
  {
    var m := if |src| < |dst| - off then |src| else |dst| - off;
    dst[..off] + src[..m] + dst[off + m..]
  }

  /**
    The keepPrefix prefix as the Go code builds it: `originalMaskInd + len(t.Prefix)`
    zero bytes, the consumed mask bytes copied to the front, then `t.Prefix`
    copied from offset `ind` (not `originalMaskInd`).
  */
  function KeptPrefixAsWritten(mask: Key, skip: nat, ind: nat, p: Key): (r: Key)
    requires skip <= |mask| && ind <= |p|
    ensures |r| == skip + |p|
  {
    CopyAt(CopyAt(Zeros(skip + |p|), 0, mask[..skip]), ind, p)
  }

  /** The copy lands right exactly when `ind == originalMaskInd`. */
  lemma KeptPrefixAligned(mask: Key, skip: nat, p: Key)
    requires skip <= |mask| && skip <= |p|
    ensures KeptPrefixAsWritten(mask, skip, skip, p) == mask[..skip] + p
  {
    var r := KeptPrefixAsWritten(mask, skip, skip, p);
    var q := mask[..skip] + p;
    forall i | 0 <= i < |r|
      ensures r[i] == q[i]
    {
    }
  }

  /** `SubTrie` exactly as written: the keepPrefix branch uses KeptPrefixAsWritten. */
  function SubTrieAsWritten<V>(n: Node<V>, mask: Key, keepPrefix: bool): Option<Node<V>>
  {
    match Locate(n, mask)
    case None => None
    case Some(Spot(t, skip)) =>
      var ind := |mask| - skip;
      Some(Node(if keepPrefix then KeptPrefixAsWritten(mask, skip, ind, t.prefix) else t.prefix[ind..],
                t.value, t.children))
  }

  /**
    The code as written agrees with the intended SubTrie on success or
    failure, without keepPrefix, and with keepPrefix whenever
    `ind == originalMaskInd` (as for the `/api/group` selector, where both
    are 5).
  */
  lemma SubTrieAsWrittenAgrees<V>(n: Node<V>, mask: Key, keepPrefix: bool)
    ensures SubTrieAsWritten(n, mask, keepPrefix).Some? <==> SubTrie(n, mask, keepPrefix).Some?
    ensures !keepPrefix ==> SubTrieAsWritten(n, mask, keepPrefix) == SubTrie(n, mask, keepPrefix)
    ensures Locate(n, mask).Some? && 2 * Locate(n, mask).value.skip == |mask| ==>
      SubTrieAsWritten(n, mask, keepPrefix) == SubTrie(n, mask, keepPrefix)
  {
    if Locate(n, mask).Some? {
      var s := Locate(n, mask).value;
      if 2 * s.skip == |mask| {
        KeptPrefixAligned(mask, s.skip, s.node.prefix);
      }
    }
  }

  /**
    A trie built by one `Put([1, 2, 3], v)` into `&Trie{}`: `SubTrie([1, 2], true)`
    as written returns the root prefix `[0, 0, 1]` instead of `[1, 2, 3]`,
    so the key `[1, 2, 3]` that starts with the mask is lost from the result.
  */
  lemma SubTrieKeepPrefixCounterexample<V>(v: V)
    ensures var n := Insert(Empty<V>(), [1, 2, 3], v).0;
      && SubTrieAsWritten(n, [1, 2], true) == Some(Node([0, 0, 1], Some(v), []))
      && SubTrie(n, [1, 2], true) == Some(Node([1, 2, 3], Some(v), []))
      && Get(n, [1, 2, 3]) == Some(v)
      && Get(SubTrieAsWritten(n, [1, 2], true).value, [1, 2, 3]) == None
  {
    var n := Insert(Empty<V>(), [1, 2, 3], v).0;
    assert n == Node([1, 2, 3], Some(v), []);
    var p: Key := [1, 2, 3];
    var mask: Key := [1, 2];
    assert CommonLen(p, mask) == 2 by {
      CommonLenUnique(p, mask, 2);
    }
    assert Locate(n, mask) == Some(Spot(n, 0));
    var r := KeptPrefixAsWritten(mask, 0, 2, p);
    assert r == [0, 0, 1];
    assert mask[..0] + p == p;
    GetUnfold(n, p);
    GetUnfold(Node([0, 0, 1], Some(v), []), p);
  }
}
