/**
  `SplitKeysOnly`: cuts a string into stored keys, each time taking the
  longest stored prefix of what is left (`Scan`, modelled by SearchPrefixIn).
*/
module Tokenize {
  import opened Wrappers
  import opened Radix
  import opened Lookup

  /** The pieces joined back together. */
  function Concat(pieces: seq<Key>): Key
  {
    if pieces == [] then [] else pieces[0] + Concat(pieces[1..])
  }

  lemma ConcatCons(head: Key, rest: seq<Key>)
    ensures Concat([head] + rest) == head + Concat(rest)
  {
    assert ([head] + rest)[1..] == rest;
  }

  /** `Scan` on a fixed tree, as a function of the input. */
  function Scanner<V>(n: Node<V>): Key -> Match<V>
  {
    s => SearchPrefixIn(n, s)
  }

  /**
    What the loop needs to make progress: whenever a scan succeeds, it
    consumes at least one byte, and no more than the input holds.  When it
    consumes none, `ind += size` adds zero and the Go loop runs forever.
  */
  ghost predicate ScanAdvances<V>(scan: Key -> Match<V>)
  {
    forall s: Key :: Advances(scan, s)
  }

  /** A successful scan of `s` consumes at least one byte of it. */
  ghost predicate Advances<V>(scan: Key -> Match<V>, s: Key)
  {
    scan(s).ok ==> 0 < scan(s).prefixLen <= |s|
  }

  /**
    Every tree Put builds advances, unless the empty key is stored: a match
    of length 0 would report the value of the empty key.
  */
  lemma ShapedScanAdvances<V>(n: Node<V>)
    requires Shaped(n) && Get(n, []).None?
    ensures ScanAdvances(Scanner(n))
  {
    forall s: Key
      ensures Advances(Scanner(n), s)
    {
      SearchIsLongestMatch(n, s);
      assert s[..0] == [];
    }
  }

  /**
    The greedy split of `str[ind..]`, as a recursive definition: cut the
    longest prefix the scan accepts off the front and split what follows
    it; stop with the remainder as the error when the scan fails.  It counts
    positions in `str`, as the loop in SplitKeysOnly does, and it is generic
    in the scan so that the lemmas below need nothing of the tree.
  */
  function Split<V>(scan: Key -> Match<V>, str: Key, ind: nat): (seq<Key>, Option<Key>)
    requires ScanAdvances(scan) && ind <= |str|
    decreases |str| - ind
  {
    if ind == |str| then ([], None)
    else
      var m := scan(str[ind..]);
      if !m.ok then ([], Some(str[ind..]))
      else
        assert Advances(scan, str[ind..]);
        var rest := Split(scan, str, ind + m.prefixLen);
        ([str[ind..ind + m.prefixLen]] + rest.0, rest.1)
  }

  /** One cut of the greedy split, at position `ind` of `str`. */
  lemma SplitStep<V>(scan: Key -> Match<V>, str: Key, ind: nat)
    requires ScanAdvances(scan) && ind < |str| && scan(str[ind..]).ok
    ensures 0 < scan(str[ind..]).prefixLen <= |str| - ind
    ensures var next := ind + scan(str[ind..]).prefixLen;
      Split(scan, str, ind).0 == [str[ind..next]] + Split(scan, str, next).0 && Split(scan, str, ind).1 == Split(scan, str, next).1
  {
    assert Advances(scan, str[ind..]);
  }

  /**
    The pieces and the error join up to the input: all of it on success,
    and on failure the pieces followed by the unmatched rest.
  */
  lemma {:induction false} SplitConcat<V>(scan: Key -> Match<V>, str: Key, ind: nat)
    requires ScanAdvances(scan) && ind <= |str|
    ensures var (res, err) := Split(scan, str, ind);
      Concat(res) + (if err.Some? then err.value else []) == str[ind..]
    decreases |str| - ind
  {
    if ind < |str| {
      if scan(str[ind..]).ok {
        var next := ind + scan(str[ind..]).prefixLen;
        SplitStep(scan, str, ind);
        var (rest, err) := Split(scan, str, next);
        SplitConcat(scan, str, next);
        var head := str[ind..next];
        assert Concat(Split(scan, str, ind).0) == head + Concat(rest) by {
          ConcatCons(head, rest);
        }
        assert head + str[next..] == str[ind..];
      } else {
        assert Concat([]) + str[ind..] == str[ind..];
      }
    }
  }

  /** No piece is empty. */
  lemma {:induction false} SplitPiecesNonEmpty<V>(scan: Key -> Match<V>, str: Key, ind: nat)
    requires ScanAdvances(scan) && ind <= |str|
    ensures var res := Split(scan, str, ind).0;
      forall i | 0 <= i < |res| :: res[i] != []
    decreases |str| - ind
  {
    if ind < |str| && scan(str[ind..]).ok {
      var next := ind + scan(str[ind..]).prefixLen;
      SplitStep(scan, str, ind);
      var rest := Split(scan, str, next).0;
      SplitPiecesNonEmpty(scan, str, next);
      var res := Split(scan, str, ind).0;
      forall i | 0 <= i < |res|
        ensures res[i] != []
      {
        if i > 0 {
          assert res[i] == rest[i - 1];
        }
      }
    }
  }

  /** The split stops only at a rest that is not empty and that the scan rejects. */
  lemma {:induction false} SplitRest<V>(scan: Key -> Match<V>, str: Key, ind: nat)
    requires ScanAdvances(scan) && ind <= |str|
    ensures var err := Split(scan, str, ind).1;
      err.Some? ==> err.value != [] && !scan(err.value).ok
    decreases |str| - ind
  {
    if ind < |str| && scan(str[ind..]).ok {
      SplitStep(scan, str, ind);
      SplitRest(scan, str, ind + scan(str[ind..]).prefixLen);
    }
  }

  /** Every piece is a match of the scan, so it has each property every match has. */
  lemma {:induction false} SplitPiecesMatch<V>(scan: Key -> Match<V>, good: Key -> bool, str: Key, ind: nat)
    requires ScanAdvances(scan) && ind <= |str|
    requires forall s: Key :: scan(s).ok && scan(s).prefixLen <= |s| ==> good(s[..scan(s).prefixLen])
    ensures var res := Split(scan, str, ind).0;
      forall i | 0 <= i < |res| :: good(res[i])
    decreases |str| - ind
  {
    if ind < |str| && scan(str[ind..]).ok {
      var next := ind + scan(str[ind..]).prefixLen;
      SplitStep(scan, str, ind);
      var rest := Split(scan, str, next).0;
      var res := Split(scan, str, ind).0;
      assert good(str[ind..next]) by {
        assert str[ind..][..next - ind] == str[ind..next];
      }
      SplitPiecesMatch(scan, good, str, next);
      forall i | 0 <= i < |res|
        ensures good(res[i])
      {
        if i > 0 {
          assert res[i] == rest[i - 1];
        }
      }
    }
  }

  /** On failure no prefix of the unmatched rest, the empty one included, is stored. */
  lemma SplitError<V>(n: Node<V>, str: Key, ind: nat)
    requires ScanAdvances(Scanner(n)) && ind <= |str|
    ensures var err := Split(Scanner(n), str, ind).1;
      err.Some? ==> err.value != [] && forall j | 0 <= j <= |err.value| :: Get(n, err.value[..j]).None?
  {
    SplitRest(Scanner(n), str, ind);
    var err := Split(Scanner(n), str, ind).1;
    if err.Some? {
      SearchLongest(n, err.value);
    }
  }

  /** On a well-shaped tree every piece is a stored key. */
  lemma SplitStored<V>(n: Node<V>, str: Key, ind: nat)
    requires ScanAdvances(Scanner(n)) && Shaped(n) && ind <= |str|
    ensures var res := Split(Scanner(n), str, ind).0;
      forall i | 0 <= i < |res| :: Get(n, res[i]).Some?
  {
    var scan := Scanner(n);
    var stored := (k: Key) => Get(n, k).Some?;
    forall s: Key | scan(s).ok && scan(s).prefixLen <= |s|
      ensures stored(s[..scan(s).prefixLen])
    {
      SearchIsLongestMatch(n, s);
    }
    SplitPiecesMatch(scan, stored, str, ind);
  }

  /**
    A non-empty split starts with the match of the scan at `ind`, and
    continues with the split of what follows that match.
  */
  lemma SplitHead<V>(scan: Key -> Match<V>, str: Key, ind: nat)
    requires ScanAdvances(scan) && ind <= |str|
    ensures var (res, err) := Split(scan, str, ind);
      res != [] ==>
        && ind < |str| && scan(str[ind..]).ok && |res[0]| == scan(str[ind..]).prefixLen
        && ind + |res[0]| <= |str| && res[0] == str[ind..][..|res[0]|]
        && Split(scan, str, ind + |res[0]|) == (res[1..], err)
  {
    if ind < |str| && scan(str[ind..]).ok {
      SplitStep(scan, str, ind);
      var next := ind + scan(str[ind..]).prefixLen;
      var res := Split(scan, str, ind).0;
      assert res[0] == str[ind..next] && res[1..] == Split(scan, str, next).0;
      assert str[ind..][..next - ind] == str[ind..next];
    }
  }

  /**
    Greedy: a non-empty split starts with the longest stored prefix of the
    input (what TakePrefix returns), and the rest of the split is the split
    of what follows that prefix.
  */
  lemma SplitGreedy<V>(n: Node<V>, str: Key, ind: nat)
    requires ScanAdvances(Scanner(n)) && ind <= |str|
    ensures var (res, err) := Split(Scanner(n), str, ind);
      res != [] ==>
        && ind + |res[0]| <= |str|
        && TakePrefix(n, str[ind..]) == (res[0], true)
        && Split(Scanner(n), str, ind + |res[0]|) == (res[1..], err)
  {
    SplitHead(Scanner(n), str, ind);
  }

  /** The loop's invariant: the pieces found so far, followed by the split of the rest, make the whole split. */
  ghost predicate SplitSoFar<V>(scan: Key -> Match<V>, str: Key, ind: nat, res: seq<Key>)
    requires ScanAdvances(scan) && ind <= |str|
  {
    Split(scan, str, 0).0 == res + Split(scan, str, ind).0 && Split(scan, str, 0).1 == Split(scan, str, ind).1
  }

  /** The invariant holds before the first scan. */
  lemma SplitStart<V>(scan: Key -> Match<V>, str: Key)
    requires ScanAdvances(scan)
    ensures SplitSoFar(scan, str, 0, [])
  {
    assert [] + Split(scan, str, 0).0 == Split(scan, str, 0).0;
  }

  /** A failed scan at `ind` ends the split there, with the rest as the error. */
  lemma SplitFail<V>(scan: Key -> Match<V>, str: Key, ind: nat, res: seq<Key>)
    requires ScanAdvances(scan) && ind < |str| && !scan(str[ind..]).ok && SplitSoFar(scan, str, ind, res)
    ensures Split(scan, str, 0) == (res, Some(str[ind..]))
  {
    assert res + [] == res;
  }

  /** A successful scan at `ind` adds its match to the pieces and moves on to `next`. */
  lemma SplitCut<V>(scan: Key -> Match<V>, str: Key, ind: nat, next: nat, res: seq<Key>)
    requires ScanAdvances(scan) && ind < |str| && scan(str[ind..]).ok && SplitSoFar(scan, str, ind, res)
    requires next == ind + scan(str[ind..]).prefixLen
    ensures ind < next <= |str|
    ensures SplitSoFar(scan, str, next, res + [str[ind..next]])
  {
    SplitStep(scan, str, ind);
    var tail := Split(scan, str, next).0;
    assert res + ([str[ind..next]] + tail) == res + [str[ind..next]] + tail;
  }

  /** Scanning to the end leaves nothing more to split. */
  lemma SplitEnd<V>(scan: Key -> Match<V>, str: Key, res: seq<Key>)
    requires ScanAdvances(scan) && SplitSoFar(scan, str, |str|, res)
    ensures Split(scan, str, 0) == (res, None)
  {
    assert res + [] == res;
  }

  /**
    The loop of `SplitKeysOnly`, for any scan: cut `str` into pieces, one
    scan at a time, and return exactly the greedy split.
  */
  method SplitLoop<V>(scan: Key -> Match<V>, str: Key) returns (res: seq<Key>, err: Option<Key>)
    requires ScanAdvances(scan)
    ensures (res, err) == Split(scan, str, 0)
  {
    var ind := 0;
    res := [];
    SplitStart(scan, str);
    while ind < |str|
      invariant ind <= |str| && SplitSoFar(scan, str, ind, res)
      decreases |str| - ind
    {
      var m := scan(str[ind..]);
      if !m.ok {
        SplitFail(scan, str, ind, res);
        return res, Some(str[ind..]);
      }
      SplitCut(scan, str, ind, ind + m.prefixLen, res);
      res, ind := res + [str[ind..ind + m.prefixLen]], ind + m.prefixLen;
    }
    SplitEnd(scan, str, res);
    return res, None;
  }

  /** `SplitKeysOnly(str)`: the loop above with the tree's `Scan`. */
  method SplitKeysOnly<V>(n: Node<V>, str: Key) returns (res: seq<Key>, err: Option<Key>)
    requires ScanAdvances(Scanner(n))
    ensures (res, err) == Split(Scanner(n), str, 0)
  {
    res, err := SplitLoop(Scanner(n), str);
  }
}
