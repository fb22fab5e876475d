/** The effect of `Trie.insert` on the tree, as a function of the old tree. */
module TrieInsert {
  import opened TrieNode
  import opened TrieEnumerate

  /** The child labelled `c`, or a fresh node when there is none (`insert`
      creates it). */
  function ChildOrEmpty(n: Node, c: char): Node
  {
    match Lookup(n.children, c)
    case Some(m) => m
    case None => Empty
  }

  /** The tree after inserting `w` below `n`: missing edges along `w` are
      created and the node at the end of `w` is marked as a leaf. */
  function Inserted(n: Node, w: string): Node
    decreases |w|
  {
    if w == [] then n.(leaf := true)
    else n.(children := Put(n.children, w[0], Inserted(ChildOrEmpty(n, w[0]), w[1..])))
  }

  /** After inserting `w`, `w` is stored and so is every word stored before;
      nothing else becomes stored. */
  lemma {:induction false} InsertedContains(n: Node, w: string, s: string)
    ensures Contains(Inserted(n, w), s) <==> Contains(n, s) || s == w
    decreases |w|
  {
    if w != [] && s != [] {
      var c := w[0];
      if s[0] == c {
        InsertedContains(ChildOrEmpty(n, c), w[1..], s[1..]);
        if Lookup(n.children, c).None? {
          assert !Contains(Empty, s[1..]);
        }
        assert s == w <==> s[1..] == w[1..];
      }
    }
  }

  /** Insertion only adds edges: the paths afterwards are the old ones and the
      prefixes of `w`. */
  lemma {:induction false} InsertedPaths(n: Node, w: string, s: string)
    ensures HasPath(Inserted(n, w), s) <==> HasPath(n, s) || s <= w
    decreases |w|
  {
    if w != [] && s != [] {
      var c := w[0];
      if s[0] == c {
        InsertedPaths(ChildOrEmpty(n, c), w[1..], s[1..]);
        if Lookup(n.children, c).None? {
          assert HasPath(Empty, s[1..]) <==> s[1..] == [];
        }
        assert s <= w <==> s[1..] <= w[1..];
      }
    }
  }

  /** Insertion keeps the tree well-formed and pruned, and the new tree stores
      at least the inserted word. */
  lemma {:induction false} InsertedValid(n: Node, w: string)
    requires Wf(n) && Pruned(n)
    ensures Wf(Inserted(n, w)) && Pruned(Inserted(n, w))
    ensures Inserted(n, w).leaf || Inserted(n, w).children != []
    decreases |w|
  {
    if w != [] {
      var c := w[0];
      var child := ChildOrEmpty(n, c);
      if Lookup(n.children, c).Some? {
        assert (c, child) in n.children;
      }
      InsertedValid(child, w[1..]);
    }
  }

  /** Insertion adds `w` to the set of stored words. */
  lemma InsertedWords(n: Node, w: string)
    requires Wf(n) && Pruned(n)
    ensures Words(Inserted(n, w)) == Words(n) + {w}
  {
    InsertedValid(n, w);
    forall s
      ensures s in Words(Inserted(n, w)) <==> s in Words(n) + {w}
    {
      WordsContains(n, s);
      WordsContains(Inserted(n, w), s);
      InsertedContains(n, w, s);
    }
  }
}
