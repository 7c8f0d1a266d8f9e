/**
  The read operations that follow one path from the root: exact match (`Get`)
  and longest stored prefix (`SearchPrefixIn`, also published as `Scan`, and
  its wrapper `TakePrefix`).

  A key counts as stored in a tree when `Get` finds a value for it; the
  traversal module shows that these are exactly the keys that `Iterate`
  reports.
*/
module Lookup {
  import opened Wrappers
  import opened Radix

  /**
    Exact match.  The key is compared with the node's prefix byte by byte; a
    divergence inside the prefix, a missing child at the next key byte, or a
    landing node without a value all end the search with nothing, without
    trying any other branch.
  */
  function Get<V>(n: Node<V>, key: Key): Option<V>
    decreases n
  {
    var ind := CommonLen(n.prefix, key);
    if ind < |n.prefix| then None
    else if ind < |key| then
      if HasChild(n, key[ind]) then Get(n.children[key[ind]].value, key[ind..]) else None
    else n.value
  }

  /** Get, restated in terms of the node's own prefix. */
  lemma GetUnfold<V>(n: Node<V>, key: Key)
    ensures Get(n, key) ==
      if !(n.prefix <= key) then None
      else if |key| == |n.prefix| then n.value
      else if HasChild(n, key[|n.prefix|]) then Get(ChildAt(n, key[|n.prefix|]), key[|n.prefix|..])
      else None
  {
    CommonLenPrefix(n.prefix, key);
  }

  /** A key that goes on past the node's prefix is looked up in the child at the next byte. */
  lemma GetThroughChild<V>(n: Node<V>, key: Key)
    requires n.prefix <= key && |n.prefix| < |key| && HasChild(n, key[|n.prefix|])
    ensures Get(n, key) == Get(ChildAt(n, key[|n.prefix|]), key[|n.prefix|..])
  {
    CommonLenPrefix(n.prefix, key);
  }

  /** A value is only ever found under a key that starts with the node's prefix. */
  lemma GetNeedsPrefix<V>(n: Node<V>, key: Key)
    requires Get(n, key).Some?
    ensures n.prefix <= key
  {
    GetUnfold(n, key);
  }

  /** The empty tree `&Trie{}` stores nothing. */
  lemma GetEmpty<V>(key: Key)
    ensures Get(Empty<V>(), key) == None
  {
    GetUnfold(Empty<V>(), key);
  }

  /** Result of a longest-prefix search: Go's `(value, prefixLen, ok)`. */
  datatype Match<V> = Match(value: Option<V>, prefixLen: nat, ok: bool)

  /** `nil, 0, false` */
  function NoMatch<V>(): Match<V>
  {
    Match(None, 0, false)
  }

  /**
    Longest stored prefix of `input`.  After the node's prefix is matched in
    full, the child at the next input byte is searched first (greedy); its
    match length is extended by this node's prefix length.  Only when the
    child finds nothing does the node fall back on its own value, with match
    length `len(t.Prefix)`.
  */
  function SearchPrefixIn<V>(n: Node<V>, input: Key): Match<V>
    decreases n
  {
    var ind := CommonLen(n.prefix, input);
    if ind < |n.prefix| then NoMatch()
    else
      var sub :=
        if ind < |input| && HasChild(n, input[ind])
        then SearchPrefixIn(n.children[input[ind]].value, input[ind..])
        else NoMatch();
      if sub.ok then Match(sub.value, sub.prefixLen + |n.prefix|, true)
      else if n.value.Some? then Match(n.value, |n.prefix|, true)
      else NoMatch()
  }

  /** Get on a prefix of a longer input that passes below the node. */
  lemma GetInputPrefix<V>(n: Node<V>, input: Key, j: nat)
    requires n.prefix <= input && |n.prefix| < j <= |input|
    ensures Get(n, input[..j]) ==
      if HasChild(n, input[|n.prefix|])
      then Get(ChildAt(n, input[|n.prefix|]), input[|n.prefix|..][..j - |n.prefix|])
      else None
  {
    GetUnfold(n, input[..j]);
    assert input[..j][|n.prefix|..] == input[|n.prefix|..][..j - |n.prefix|];
  }

  /** SearchPrefixIn, restated in terms of the node's own prefix. */
  lemma SearchUnfold<V>(n: Node<V>, input: Key)
    ensures SearchPrefixIn(n, input) ==
      if !(n.prefix <= input) then NoMatch()
      else
        var sub :=
          if |n.prefix| < |input| && HasChild(n, input[|n.prefix|])
          then SearchPrefixIn(ChildAt(n, input[|n.prefix|]), input[|n.prefix|..])
          else NoMatch();
        if sub.ok then Match(sub.value, sub.prefixLen + |n.prefix|, true)
        else if n.value.Some? then Match(n.value, |n.prefix|, true)
        else NoMatch()
  {
    CommonLenPrefix(n.prefix, input);
  }

  /**
    What SearchPrefixIn reports is stored: `input[:prefixLen]` maps to the
    returned value.  This needs every child prefix to be non-empty: a child
    with an empty prefix would report its own value under its parent's key.
  */
  lemma {:induction false} SearchSound<V>(n: Node<V>, input: Key)
    requires Shaped(n)
    ensures var m := SearchPrefixIn(n, input);
      m.ok ==> |n.prefix| <= m.prefixLen <= |input| && Get(n, input[..m.prefixLen]) == m.value
    decreases n
  {
    SearchWithin(n, input);
    var m := SearchPrefixIn(n, input);
    var p := n.prefix;
    var ind := CommonLen(p, input);
    if m.ok {
      assert ind == |p|;
      if ind < |input| && HasChild(n, input[ind]) && SearchPrefixIn(ChildAt(n, input[ind]), input[ind..]).ok {
        var c, rest := ChildAt(n, input[ind]), input[ind..];
        var sub := SearchPrefixIn(c, rest);
        assert m.prefixLen == sub.prefixLen + |p| && m.value == sub.value;
        assert Get(c, rest[..sub.prefixLen]) == sub.value && c.prefix != [] && |c.prefix| <= sub.prefixLen by {
          assert ShapedChild(n.children[input[ind]].value, input[ind] as int);
          SearchSound(c, rest);
        }
        assert Get(n, input[..m.prefixLen]) == Get(c, rest[..sub.prefixLen]) by {
          CommonLenPrefix(p, input);
          GetInputPrefix(n, input, m.prefixLen);
        }
      } else {
        assert m.prefixLen == |p| && m.value == n.value;
        assert input[..|p|] == p;
        GetUnfold(n, input[..|p|]);
      }
    }
  }

  /** A match never reaches past the end of the input. */
  lemma {:induction false} SearchWithin<V>(n: Node<V>, input: Key)
    ensures var m := SearchPrefixIn(n, input);
      m.ok ==> |n.prefix| <= m.prefixLen <= |input|
    decreases n
  {
    SearchUnfold(n, input);
    var p := n.prefix;
    if p <= input && |p| < |input| && HasChild(n, input[|p|]) {
      SearchWithin(ChildAt(n, input[|p|]), input[|p|..]);
    }
  }

  /**
    A successful search reports a value and a length within the input; a
    failed one reports `nil, 0, false`.  No prefix of the input longer than
    the reported match is stored.
  */
  lemma {:induction false} SearchLongest<V>(n: Node<V>, input: Key)
    ensures var m := SearchPrefixIn(n, input);
      && (m.ok ==> m.value.Some? && m.prefixLen <= |input|)
      && (!m.ok ==> m == NoMatch())
      && forall j | (if m.ok then m.prefixLen + 1 else 0) <= j <= |input| :: Get(n, input[..j]).None?
    decreases n
  {
    var m := SearchPrefixIn(n, input);
    var p := n.prefix;
    SearchUnfold(n, input);
    var bound := if m.ok then m.prefixLen + 1 else 0;
    if !(p <= input) {
      forall j | 0 <= j <= |input|
        ensures Get(n, input[..j]).None?
      {
        GetUnfold(n, input[..j]);
      }
    } else {
      if |p| < |input| && HasChild(n, input[|p|]) {
        SearchLongest(ChildAt(n, input[|p|]), input[|p|..]);
      }
      forall j | bound <= j <= |input|
        ensures Get(n, input[..j]).None?
      {
        if j <= |p| {
          GetUnfold(n, input[..j]);
        } else {
          GetInputPrefix(n, input, j);
        }
      }
    }
  }

  /**
    SearchPrefixIn finds the longest stored key that is a prefix of the input:
    on success `input[..prefixLen]` is stored with the returned value and no
    longer prefix of the input is stored; on failure the result is
    `nil, 0, false` and no prefix of the input (the empty one included) is stored.
  */
  lemma SearchIsLongestMatch<V>(n: Node<V>, input: Key)
    requires Shaped(n)
    ensures var m := SearchPrefixIn(n, input);
      && (m.ok ==> m.prefixLen <= |input| && m.value.Some? && Get(n, input[..m.prefixLen]) == m.value)
      && (!m.ok ==> m == NoMatch())
      && forall j | (if m.ok then m.prefixLen + 1 else 0) <= j <= |input| :: Get(n, input[..j]).None?
  {
    SearchSound(n, input);
    SearchLongest(n, input);
  }

  /**
    `TakePrefix`: the longest stored prefix of `s` itself, `s[:prefixLen]`,
    or `"", false` when no prefix of `s` is stored.
  */
  function TakePrefix<V>(n: Node<V>, s: Key): (r: (Key, bool))
    ensures r.1 ==> r.0 <= s && forall j | |r.0| < j <= |s| :: Get(n, s[..j]).None?
    ensures !r.1 ==> r.0 == [] && forall j | 0 <= j <= |s| :: Get(n, s[..j]).None?
    ensures r.1 && Shaped(n) ==> Get(n, r.0).Some?
  {
    SearchLongest(n, s);
    var m := SearchPrefixIn(n, s);
    assert Shaped(n) && m.ok ==> Get(n, s[..m.prefixLen]).Some? by {
      if Shaped(n) {
        SearchSound(n, s);
      }
    }
    if m.ok then (s[..m.prefixLen], true) else ([], false)
  }

  /**
    `Get` as the Go method runs it: a loop counts the matching bytes of the
    node prefix and the key, then the search goes on in one child or stops.
  */
  method GetNode<V>(n: Node<V>, key: Key) returns (value: Option<V>)
    ensures value == Get(n, key)
    decreases n
  {
    var ind := 0;
    while ind < |n.prefix| && ind < |key| && n.prefix[ind] == key[ind]
      invariant ind <= |n.prefix| && ind <= |key|
      invariant n.prefix[..ind] == key[..ind]
    {
      ind := ind + 1;
    }
    CommonLenUnique(n.prefix, key, ind);
    if ind < |n.prefix| {
      return None;
    }
    if ind < |key| {
      if HasChild(n, key[ind]) {
        value := GetNode(ChildAt(n, key[ind]), key[ind..]);
        return;
      }
      return None;
    }
    return n.value;
  }

  /**
    `Scan` as the Go method runs it: the same prefix loop, then the child at
    the next input byte first, then the node's own value.
  */
  method ScanNode<V>(n: Node<V>, input: Key) returns (value: Option<V>, prefixLen: nat, ok: bool)
    ensures Match(value, prefixLen, ok) == SearchPrefixIn(n, input)
    decreases n
  {
    var ind := 0;
    while ind < |n.prefix| && ind < |input| && n.prefix[ind] == input[ind]
      invariant ind <= |n.prefix| && ind <= |input|
      invariant n.prefix[..ind] == input[..ind]
    {
      ind := ind + 1;
    }
    CommonLenUnique(n.prefix, input, ind);
    if ind < |n.prefix| {
      return None, 0, false;
    }
    value, prefixLen, ok := None, 0, false;
    if ind < |input| && HasChild(n, input[ind]) {
      value, prefixLen, ok := ScanNode(ChildAt(n, input[ind]), input[ind..]);
    }
    if ok {
      prefixLen := prefixLen + |n.prefix|;
      return;
    }
    if n.value.Some? {
      return n.value, |n.prefix|, true;
    }
    return None, 0, false;
  }
}
