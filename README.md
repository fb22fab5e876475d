# Uncompressed character trie, modelled in Dafny

This project models the trie of `comp_trie/trie.py`: a tree of nodes, each
holding a dictionary from one character to a child node plus a `leaf` flag
that marks the end of a stored word, and a `Trie` object that owns the root
node and a word counter `count`. It models the operations `insert`,
`search`, `getAllWords`, `getAllWordsFromSubtree`, `getAllPrefixes`,
`delete` and its recursive helper `_delete`, and the demonstration run
`main`.

Layout:

- `node.dfy` (module `TrieNode`): the node as a value. `children` is a
  sequence of `(char, Node)` pairs with unique keys, kept in insertion order
  as a Python dictionary is: `Lookup` is `letter in children` /
  `children[letter]`, `Put` is `children[letter] = m` and `Remove` is
  `del children[letter]`. `Find` walks a string from a node. `Contains(n, s)`
  means `s` is stored below `n`. `Wf` (unique labels everywhere) and
  `Pruned` (no childless non-leaf node below the root) are the tree
  invariants.
- `enumerate.dfy` (module `TrieEnumerate`): `Enumerate(n, p)` is the
  depth-first list `getAllWordsFromSubtree` produces. `CollectWords` is that
  recursive method with its loop over the children and its accumulator.
  `Words(n)` is the set of stored words.
- `insert.dfy` (module `TrieInsert`): `Inserted(n, w)`, the tree after
  `insert`, with its lemmas.
- `delete.dfy` (module `TrieDelete`): `DeleteFrom(n, w)` is `_delete` on the
  remaining suffix `w = word[index:]`, exactly as written. It has an exact
  characterisation of its effect and the counterexample to the intended
  behaviour. `DeleteFromFixed` is the corrected helper (see Findings).
- `trie.dfy` (module `Tries`): the class `Trie` with fields `root` and
  `count`. `Insert` walks a cursor down the tree, keeping the path it came
  along (a zipper of `Frame`s), and writes the updated nodes back into the
  root. `Search` and `GetAllPrefixes` are the cursor loops of the source.
  `Delete` is `delete` as written. `DeleteFixed` is `delete` with the
  corrected helper.
- `scenario.dfy` (module `TrieScenarios`): the run of `main` with every
  printed value proved, plus three short runs: a duplicate insert, the
  deletion defect, and the same deletion with the corrected helper.

The invariant of a `Trie` (`Valid`) is: unique labels, nothing to prune
below the root, and `|Words(root)| <= count`. The counter is an upper bound,
not the number of stored words. `insert` increments it even when the word
was already stored. The comment at comp_trie/trie.py:14 calls `count` the
number of words, but `insert` increments it unconditionally (trie.py:26); the
model follows the code.

## Model

| member | source | states |
|---|---|---|
| TrieNode.Lookup | comp_trie/trie.py:21-24 | `letter in children` is false exactly when no edge carries `letter`; otherwise `children[letter]` is an edge of the node, and under unique labels it is the only one |
| TrieNode.Put | comp_trie/trie.py:23 | after `children[letter] = m`, `letter` leads to `m`, every other lookup is unchanged, no entry is lost except the replaced one, and labels stay unique |
| TrieNode.PutPut | comp_trie/trie.py:23 | writing the same label twice leaves only the second write, in the first write's position |
| TrieNode.Remove | comp_trie/trie.py:89 | after `del children[char]` every other lookup is unchanged and only entries of the node remain; with unique labels `char` is gone, every other entry stays, and the dictionary is empty exactly when `char` was its only label |
| TrieNode.FindAppend | comp_trie/trie.py:46-52 | walking `p` and then `s` from the node reached is walking `p + s` |
| TrieNode.FindWf | comp_trie/trie.py:46-52 | every node reached by a walk from a well-formed, pruned root is itself well-formed and pruned |
| TrieNode.StoresSomeWord | comp_trie/trie.py:78-91 | a pruned node that is a leaf or has children stores at least one word, which is why no childless non-leaf node is left behind |
| TrieEnumerate.EnumerateMembers | comp_trie/trie.py:35-42 | a string is collected from `node` with prefix `p` exactly when it is `p` followed by a word stored below `node` |
| TrieEnumerate.EnumChildrenMembers | comp_trie/trie.py:40-42 | the children loop collects, after `k` children, exactly the words below the first `k` edges |
| TrieEnumerate.EnumerateDistinct | comp_trie/trie.py:35-42 | no word is collected twice |
| TrieEnumerate.WordsContains | comp_trie/trie.py:29-33 | the words enumerated from the root with prefix "" are exactly the stored words |
| TrieEnumerate.PrefixWords | comp_trie/trie.py:44-55 | if `p` has no path, no stored word starts with `p`; otherwise the words collected below the node of `p` are exactly the stored words that start with `p` |
| TrieEnumerate.CollectWords | comp_trie/trie.py:35-42 | the accumulator afterwards is the accumulator before followed by the depth-first enumeration: the node's own word when it is a leaf, then each child's words in dictionary order |
| TrieInsert.InsertedContains | comp_trie/trie.py:16-25 | after inserting `w`, `w` is stored, every word stored before still is, and nothing else is |
| TrieInsert.InsertedPaths | comp_trie/trie.py:18-24 | insertion only adds edges: the paths afterwards are the old paths and the prefixes of `w` |
| TrieInsert.InsertedValid | comp_trie/trie.py:16-25 | insertion keeps labels unique and leaves no childless non-leaf node; the root afterwards is a leaf or has children |
| TrieInsert.InsertedWords | comp_trie/trie.py:16-25 | the set of stored words grows by exactly `w` |
| TrieDelete.DeleteFromSpec | comp_trie/trie.py:78-91 | `_delete` as written keeps the tree well-formed and pruned; it returns true exactly when the node is left childless, and exactly when every word below it is a prefix of `w`; a word stays stored exactly when it was stored, is not `w`, and is not a proper prefix of `w` with no branch leaving the path of `w` below it |
| TrieDelete.DeleteKeepsOtherWords | comp_trie/trie.py:84-91 | every stored word other than `w` that is not a proper prefix of `w` is still stored after `_delete` |
| TrieDelete.DeleteFromKeepsPaths | comp_trie/trie.py:80-86 | when the end node of `w` has children, `_delete` returns false and removes no edge: only the leaf flag is cleared, so a word stays stored exactly when it was stored and is not `w` |
| TrieDelete.DeleteDropsStoredPrefix | comp_trie/trie.py:87-90 | with "ab" and "abc" stored and nothing else, `_delete` of "abc" unlinks every edge, so "ab" is no longer stored |
| TrieDelete.DeleteFromFixedSpec | comp_trie/trie.py:78-91 | `_delete` with the leaf check keeps the tree well-formed and pruned, removes exactly `w`, and returns true exactly when the node is left childless and not a leaf |
| Tries.CursorStep | comp_trie/trie.py:19-24 | one iteration of the `insert` loop (create the missing child, step into it) leaves unchanged the tree that the cursor and its path will write back |
| Tries.DeletedFacts | comp_trie/trie.py:73-74 | deleting a stored word as written keeps the invariant, removes `w`, and strictly shrinks the set of stored words, so decrementing `count` keeps it an upper bound; when the end node of `w` has children, the paths are unchanged and the stored words lose exactly `w` |
| Tries.FixedDeletedFacts | comp_trie/trie.py:73-74 | the corrected deletion of a stored word keeps the invariant and removes exactly `w` from the stored words |
| Tries.Trie.constructor | comp_trie/trie.py:11-14 | a fresh trie has an empty root, `count == 0`, and stores nothing |
| Tries.Trie.Insert | comp_trie/trie.py:16-26 | the root becomes `Inserted(old root, w)`, `count` grows by exactly 1 even for a word already stored, the stored words grow by exactly `w`, only edges along `w` are added, and the invariant is kept |
| Tries.Trie.Search | comp_trie/trie.py:57-66 | returns whether `w` is stored (false as soon as an edge is missing, else the end node's leaf flag) and changes nothing |
| Tries.Trie.GetAllWords | comp_trie/trie.py:29-33 | returns the depth-first enumeration from the root: exactly the words `search` accepts, each once, "" included when the root is a leaf |
| Tries.Trie.GetAllPrefixes | comp_trie/trie.py:44-55 | returns [] when the path of `p` is missing, otherwise the enumeration below the node of `p`: exactly the stored words starting with `p`, each once |
| Tries.Trie.Delete | comp_trie/trie.py:68-76 | an absent word: returns false and changes nothing; a stored word: returns true, runs `_delete` as written, decrements `count`, and afterwards `w` is not stored, a word survives exactly as `DeleteFromSpec` says, and when `w`'s end node had children no edge is removed and the stored words lose exactly `w`; the invariant is kept |
| Tries.Trie.DeleteFixed | comp_trie/trie.py:68-76 | as `Delete`, with the corrected helper: the stored words become exactly the old ones without `w` |
| TrieScenarios.BuildTrie | comp_trie/trie.py:98-100 | inserting a list of words one by one into a new trie gives the fold of `Inserted` over the list and a count equal to its length |
| TrieScenarios.MainScenario | comp_trie/trie.py:93-122 | `main` lists ["axy", "abxy", "bca", "bxta"], then ["bca", "bxta"] for prefix "b", finds "abxy", deletes "axy", and then lists ["abxy", "bca", "bxta"] |
| TrieScenarios.DuplicateScenario | comp_trie/trie.py:16-26 | inserting "a" twice stores it once with `count == 2`; deleting it once removes it while `count` stays 1 |
| TrieScenarios.PrefixScenario | comp_trie/trie.py:87-90 | inserting "ab" and "abc" and deleting "abc" leaves nothing stored and `search("ab")` false, with `count == 1` |
| TrieScenarios.FixedPrefixScenario | comp_trie/trie.py:87-90 | the same run with the corrected helper keeps "ab": `search("ab")` is true and the only stored word is "ab" |

## Left out

- `print` calls (comp_trie/trie.py:27, 75, 103-122) are not modelled. They are diagnostic output only. The scenario methods return the values `main` prints instead of printing them.
- `Node.data` (comp_trie/trie.py:5) is not modelled. No operation sets or reads it.
- comp_trie/performance_check.py is not part of this model. It measures memory with the interpreter's `sys.getsizeof` and only calls the trie.
- Python's dictionary is modelled as an insertion-ordered list of pairs. Hashing is not modelled. Iteration order is insertion order, assignment to an existing key keeps that key's position, and `del` closes the gap.
- Nodes are values, not shared objects. Each node of the source is reachable from exactly one parent, so in-place updates through `curr` or `node` are rebuilds of the path from the root here, and no aliasing is lost. `Insert` rebuilds the path once, after its loop, from the frames it recorded.
- The `index` parameter of `_delete` is modelled by the remaining suffix `word[index:]`.
- TrieDelete.DeleteFrom: requires a path for `w`. The source would raise `KeyError` at comp_trie/trie.py:85 without one, but `delete` only calls `_delete` after `search` succeeds.
- CPython's recursion limit is not modelled. `_delete` (comp_trie/trie.py:78-91) and `getAllWordsFromSubtree` (comp_trie/trie.py:35-42) recurse once per character, so under the default limit of 1000 a `delete` of a word of about 1000 characters raises `RecursionError` at comp_trie/trie.py:86, before the leaf flag is cleared (:82) and `count` is decremented (:74), while the model's `Delete` returns true; `getAllWords` and `getAllPrefixes` raise likewise on such a word. Recursion depth is a property of the interpreter, not of the trie.
- Python strings are modelled as sequences of `char`. Every length, count and index is an unbounded integer, as in Python.

## Findings

| source | as written | input that shows it | evidently intended | confidence | as-written member | corrected member |
|---|---|---|---|---|---|---|
| comp_trie/trie.py:90 | on the way back, a node whose child was unlinked reports `len(node.children) == 0` as "delete me too", without looking at `node.leaf` | insert "ab", insert "abc", delete "abc": the node of "ab" becomes childless, is reported deletable and is unlinked, so `search("ab")` turns false and `getAllWords()` is [] while `count` is 1 | report "delete me" only when the node is childless and not the end of a word, so that only `w` stops being stored | not executed | TrieDelete.DeleteDropsStoredPrefix | TrieDelete.DeleteFromFixedSpec |
