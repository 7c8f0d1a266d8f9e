# Sparse radix trie — a Dafny model

A model of the Go package `trie` (porfirion/trie): a sparse radix (Patricia)
trie keyed by byte strings. Each node `Trie{Prefix, Value, Children}` holds a
prefix, an optional value and either no children array (nil) or an array of
256 child pointers indexed by the next key byte. The model covers:

- `Put`, with `getChildOrCreate`;
- the exact-match `Get`;
- the greedy longest-prefix search `SearchPrefixIn` / `Scan`, and `TakePrefix`;
- `GetAll`, `SubTrie`, `Count` and `Iterate`;
- the tokenising loop `SplitKeysOnly`.

Files (one module each):

- `wrappers.dfy`: `Option`. A Go `nil` value means "absent".
- `radix.dfy`: `Node`.
  - `children == []` is a nil `Children`; otherwise there are 256 slots.
  - The shape invariants: `Typed`, `Shaped`, `WellFormed`.
  - `CommonLen`, the common-prefix loop that every operation starts with.
- `lookup.dfy`: `Get` and `SearchPrefixIn` as functions. `GetNode` and `ScanNode` are the Go methods with their loops. `TakePrefix`.
- `traversal.dfy`: `Iterate`, as the sequence of callback calls. The `iterate` loop method. `Count`. Ordering and contents lemmas.
- `insertion.dfy`: `Insert`, the specification of `Put`.
  - `PutNode` follows the Go method statement by statement.
  - The `Trie` class is the root handle whose fields `Put` assigns.
  - Lemmas on `Get` after `Put`, on shape and on `Count`.
- `paths.dfy`: `GetAll` and `SubTrie`, each with the Go walk as a method. Their reference definitions. The keepPrefix copy as written.
- `tokenize.dfy`: `Split`, the greedy split as a recursive definition over any scan function. `SplitKeysOnly` is the Go loop, proved equal to it for the tree's `SearchPrefixIn` (which `Lookup.ScanNode` computes), with lemmas on the pieces.

A key is stored in a tree when `Get` finds a value for it. `IterateIsContents`
shows that these keys are exactly the ones `Iterate` reports.

## Model

| member | source | states |
|---|---|---|
| `Radix.IsEmpty` | trie.go:65 | the test `len(Prefix) == 0 && Children == nil && Value == nil` holds exactly of `&Trie{}` |
| `Radix.NoSlots` | trie.go:97 | a fresh `[256]*Trie` has 256 slots, all nil |
| `Radix.CommonLen` | trie.go:46-51 | the common-prefix count is within both keys, both agree up to it, and it stops at the end of one key or at the first differing byte |
| `Radix.CommonLenPrefix` | trie.go:53 | the loop covers the whole node prefix exactly when that prefix is a prefix of the key |
| `Insertion.Split` | trie.go:88-98 | the split node keeps `curPrefix[:ind]` and no value; a fresh 256-slot array holds exactly one child, at `curPrefix[ind]`, with prefix `curPrefix[ind:]` and the old value and children |
| `Insertion.ChildOrCreate` | trie.go:113-121 | `getChildOrCreate(b)` allocates the array if nil and an empty child if slot `b` is nil; it returns the existing child otherwise; no other slot, the prefix and the value are unchanged |
| `Insertion.GetSplit` | trie.go:88-98 | splitting a node does not change the value of any key |
| `Insertion.GetChildOrCreate` | trie.go:113-121 | getChildOrCreate does not change the value of any key |
| `Insertion.InsertGet` | trie.go:45-111 | after `Put(key, v)`, `Get(key)` is `v`; every other key, including prefixes and extensions of `key` and the empty key, keeps its value; the returned old value is what `Get(key)` gave before (nil if none) |
| `Insertion.InsertIntoEmpty` | trie.go:53-70 | `Put` into `&Trie{}` stores a non-empty key as the root's own prefix and value; the empty key goes into the root's value |
| `Insertion.InsertShaped` | trie.go:76-108 | `Put` keeps the tree well formed: every child has a non-empty prefix whose first byte is its slot, and every node below the root holds a value or a child; the root prefix becomes the common part of the old prefix and the key |
| `Insertion.InsertKeys` | trie.go:45-111 | the keys reported after `Put(key, v)` are those before plus `key` |
| `Insertion.InsertCount` | trie.go:57-62 | `Put` raises Count by one exactly when the key was not stored before, and otherwise replaces the value |
| `Insertion.PutAllCount` | constructors.go:4-21 | building a tree by `Put`ting a list of pairs keeps it well formed; Count equals the number of distinct keys, old and new |
| `Insertion.PutNode` | trie.go:45-111 | the Go method, with its common-prefix loop and its four branches, returns the tree and the old value that `Insert` specifies |
| `Insertion.Trie.constructor` | trie.go:16-26 | `&Trie{}` is the empty, well-formed tree |
| `Insertion.Trie.Put` | trie.go:45-111 | on the root handle: the new state is `Insert` of the old one; the key maps to `val` and every other key is unchanged; the old value is returned; a well-formed tree stays well formed; Count grows by one exactly when the key is new |
| `Lookup.GetUnfold` | trie.go:128-152 | `Get` fails without backtracking when the key diverges inside the node prefix or no child exists at the next byte; when the key ends at the node it gives the node's value (possibly absent); otherwise it continues in that child with the rest of the key |
| `Lookup.GetNeedsPrefix` | trie.go:134-138 | a value is only found under a key that starts with the node prefix |
| `Lookup.GetEmpty` | trie.go:16-26 | `&Trie{}` stores nothing |
| `Lookup.GetNode` | trie_methods.go:48-77 | the Go `Get`, with its loop, returns exactly `Get` |
| `Lookup.ScanNode` | trie_methods.go:11-41 | the Go `Scan` / `SearchPrefixIn`, with its loop, returns exactly `SearchPrefixIn`'s `(value, prefixLen, ok)` |
| `Lookup.SearchSound` | trie.go:170-200 | on a well-shaped tree a successful search reports a length between the node prefix length and `len(input)`, and `input[:prefixLen]` is stored with the returned value |
| `Lookup.SearchWithin` | trie.go:182-196 | a match never reaches past the end of the input, and it includes the whole node prefix |
| `Lookup.SearchLongest` | trie_methods.go:11-41 | on success a value is returned and `prefixLen <= len(input)`; on failure `nil, 0, false`; no prefix of the input longer than the match is stored |
| `Lookup.SearchIsLongestMatch` | trie.go:167-200 | on a well-shaped tree the search finds the longest stored prefix of the input with its value; on failure it returns `nil, 0, false` and no prefix of the input, the empty one included, is stored |
| `Lookup.TakePrefix` | trie.go:154-161 | returns `str[:prefixLen]`, a prefix of `str`, with no longer stored prefix of `str`, and a stored key on a well-shaped tree; returns `"", false` only when no prefix of `str` is stored |
| `Traversal.IterateFrom` | iterate.go:17-29 | the Go `iterate`, with its loop over the 256 slots, makes exactly the callback calls `Entries` lists, in order |
| `Traversal.EntryExtendsPath` | iterate.go:18 | every key passed to the callback starts with the prefixes from the root down to the node |
| `Traversal.EntryStored` | iterate.go:18-21 | the key passed for a node is the path of prefixes to it, and `Get` finds its value there |
| `Traversal.StoredIsEntry` | iterate.go:19-27 | every stored key is passed to the callback with its value |
| `Traversal.IterateIsContents` | iterate.go:13-29 | on a well-shaped tree the callback receives exactly the stored keys with their values: `Get` finds every enumerated key and nothing else |
| `Traversal.IterateAscending` | iterate.go:10-12 | keys are reported in strictly increasing byte-wise order: a node's value before its descendants, slots in ascending order; no key is reported twice |
| `Traversal.KeysAreStored` | iterate.go:19-21 | the reported keys are the stored keys, one callback call per key |
| `Traversal.Count` | trie.go:312-328 | a nil trie counts 0; otherwise the count is the number of callback calls Iterate makes, i.e. of nodes holding a value |
| `Paths.GetAllNode` | trie.go:290-310 | the Go `GetAll`, with its loop, returns exactly `GetAll` |
| `Paths.GetAllIsPrefixValues` | trie.go:286-310 | on a well-shaped tree `GetAll(mask)` is the values of exactly the stored keys that are prefixes of the mask, shortest first |
| `Paths.LocatePrefix` | trie.go:245-284 | where the walk stops, the rest of the mask is a prefix of that node's prefix |
| `Paths.LocateGet` | trie.go:245-269 | keys extending the mask have, below the node where the walk stops, the values they had in the trie |
| `Paths.SubTrieWalk` | trie.go:245-284 | the walk of `subTrie`, with its loop (stop, descend into the child, or fail), returns the intended sub-trie; the keepPrefix copy is placed at `originalMaskInd`, which gives the documented root prefix, not at `ind` as trie.go:262 does (that code as written is `Paths.SubTrieAsWritten`, see Findings) |
| `Paths.SubTrieFromRoot` | trie.go:241-243 | `SubTrie(mask, keepPrefix)` is the walk from the root with nothing consumed |
| `Paths.SubTrieGet` | trie.go:264-265 | without keepPrefix, key `k` in the sub-trie holds what `mask + k` holds in the trie |
| `Paths.SubTrieKeptPrefix` | trie.go:233-240 | keepPrefix succeeds exactly when the plain call does, and its root prefix is the mask followed by the plain root prefix |
| `Paths.SubTrieKeepGet` | trie.go:233-240 | with keepPrefix, the sub-trie stores exactly the keys starting with the mask, under their original keys |
| `Paths.SubTrieNone` | trie.go:271-282 | SubTrie fails only when no key extending the mask is stored |
| `Paths.CopyAt` | trie.go:261-262 | Go's `copy(dst[off:], src)` overwrites the overlapping bytes from `off` and keeps the length |
| `Paths.KeptPrefixAligned` | trie.go:259-262 | the keepPrefix copy as written gives `originalMask[:originalMaskInd] + t.Prefix` when `ind == originalMaskInd` |
| `Paths.SubTrieAsWrittenAgrees` | trie.go:245-284 | the code as written succeeds exactly when the intended SubTrie does; it agrees without keepPrefix, and with keepPrefix whenever `ind == originalMaskInd` |
| `Paths.SubTrieKeepPrefixCounterexample` | trie.go:262 | after `Put([1,2,3], v)` on `&Trie{}`, `SubTrie([1,2], true)` as written has root prefix `[0,0,1]` and loses key `[1,2,3]`; the intended result keeps it |
| `Tokenize.ShapedScanAdvances` | trie_methods.go:85-92 | in a tree built by Put where the empty key is not stored, every successful `Scan` consumes at least one byte, so the loop makes progress |
| `Tokenize.SplitConcat` | trie_methods.go:80-95 | the pieces, followed by the unmatched rest on error, join back to the input from the loop's position |
| `Tokenize.SplitPiecesNonEmpty` | trie_methods.go:85-92 | no piece is empty, since every successful scan consumes at least one byte |
| `Tokenize.SplitError` | trie_methods.go:86-88 | on error the rest `str[ind:]` is non-empty and no prefix of it, the empty one included, is stored |
| `Tokenize.SplitGreedy` | trie_methods.go:85-92 | each piece is the longest stored prefix of what is left (`TakePrefix`), and the split continues right after it |
| `Tokenize.SplitStored` | trie_methods.go:85-92 | on a well-shaped tree every piece is a stored key |
| `Tokenize.SplitLoop` | trie_methods.go:80-95 | the loop, with any scan that always advances, returns exactly the greedy split: the pieces, and the unmatched rest as the error |
| `Tokenize.SplitKeysOnly` | trie_methods.go:80-95 | the Go method, scanning with the tree's `SearchPrefixIn`, returns exactly the greedy split of `str` |

## Left out

- Aliasing: `SubTrie` shares `Children` with the original tree. Trees are values here, so a later `Put` into one is not seen in the other.
- Nodes below the root are values rebuilt on the way back from `Put`. The in-place writes into the children array and the pointer identity of nodes are not modelled. Only the root handle `Trie` is a class whose fields `Put` assigns.
- Storing `nil` as a value: values are `Option`, and `Put` takes a present value.
- The string wrappers (`PutString`, `GetByString`, `SearchPrefixInString`, `ScanString`, `GetString`) only convert strings to bytes; keys are byte sequences.
- `constructors.go` calls `Add`, which is not part of this model. `PutAll` folds `Put` over a list in order instead. `BuildFromMap`'s random map order is not modelled.
- `stringer.go` (text formatting), `export/` (Go source generation) and `prefix/checker.go` are not part of this model. The checker is the same slice of `Scan`'s result as `TakePrefix`.
- The callback is modelled by the sequence of (key, value) pairs it receives. Each key is a fresh sequence here. This matches the code: `append(prefix[:len(prefix):len(prefix)], t.Prefix...)` at iterate.go:18 and trie.go:220 caps the capacity at the length, so a non-empty append allocates and the 1024-byte buffer is never written into. The comments at iterate.go:7 and trie.go:206 about the array changing do not describe that code.
- Concurrency: the package is not thread safe and the model is sequential.
- `GetAll` returns nil or an empty slice in Go; both are the empty sequence here.
- `SplitKeysOnly`'s error is `fmt.Errorf("not a key: %s", rest)`. The model returns the rest itself, `Some(str[ind:])`.
- `Tokenize.SplitKeysOnly` requires that every successful `Scan`, on any input, consumes at least one byte (`ScanAdvances(Scanner(n))`; `Tokenize.ShapedScanAdvances` shows it holds for a well-shaped tree without the empty key). The requires therefore excludes every tree that stores the empty key, including runs on which the Go loop ends. The Go loop runs forever only when a scan at a position it reaches matches nothing but the empty key. For example, with `{"": 0, "a": 1}` and `str == "a"` the one scan has length 1 and Go returns `["a"], nil`, but that call is outside the model.
- Strings in `SplitKeysOnly` are byte sequences; UTF-8 is not modelled.
- `Paths.SubTrieWalk` requires `originalMaskInd + len(mask) == len(originalMask)`. Every call the walk makes has this property.
- `Lookup.SearchSound` and `Lookup.TakePrefix` state that the match is stored only for well-shaped trees. On an arbitrary node, a child with an empty prefix would report its value under its parent's key.
- `Get` and `iterate` are defined twice in the package, and `Scan` is `SearchPrefixIn` under another name. Each algorithm is modelled once.

## Findings

| source | as written | input that shows it | evidently intended | confidence | as-written member | corrected member |
|---|---|---|---|---|---|---|
| trie.go:262 | the keepPrefix branch copies `t.Prefix` into the new prefix at offset `ind` (mask bytes left at this node), not at `originalMaskInd` (bytes consumed above it) | `Put([1,2,3], v)` into `&Trie{}`, then `SubTrie([1,2], true)`: the root prefix becomes `[0,0,1]` instead of `[1,2,3]`, and key `[1,2,3]` is lost | root prefix `originalMask[:originalMaskInd] + t.Prefix`, as documented at trie.go:233-240 | high; not executed | `Paths.SubTrieKeepPrefixCounterexample` | `Paths.SubTrieKeepGet` |
