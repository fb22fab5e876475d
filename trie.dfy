/** The `Trie` class of comp_trie/trie.py: a root node updated in place and
    a word counter. */
module Tries {
  import opened TrieNode
  import opened TrieEnumerate
  import opened TrieInsert
  import opened TrieDelete

  /** One step of the cursor walk of `insert`: the node the cursor left and
      the character it followed. */
  datatype Frame = Frame(parent: Node, letter: char)

  /** Writes the node under the cursor back into its ancestors, innermost
      frame first: the tree that in-place updates through the cursor
      produce. */
  function Plug(ctx: seq<Frame>, n: Node): Node
    decreases |ctx|
  {
    if ctx == [] then n
    else Plug(ctx[1..], ctx[0].parent.(children := Put(ctx[0].parent.children, ctx[0].letter, n)))
  }

  /** One iteration of the loop of `insert` keeps the tree that the cursor
      and its frames will produce: creating the missing child, stepping into
      it and recording the frame leaves the outcome of the whole insertion
      unchanged. */
  lemma CursorStep(ctx: seq<Frame>, curr: Node, w: string, i: nat)
    requires i < |w|
    ensures var curr' := if Lookup(curr.children, w[i]).None?
                         then curr.(children := Put(curr.children, w[i], Empty))
                         else curr;
      var child := Lookup(curr'.children, w[i]).value;
      Plug([Frame(curr', w[i])] + ctx, Inserted(child, w[i + 1..])) == Plug(ctx, Inserted(curr, w[i..]))
  {
    var letter, rest := w[i], w[i + 1..];
    assert w[i..][0] == letter && w[i..][1..] == rest;
    if Lookup(curr.children, letter).None? {
      PutPut(curr.children, letter, Empty, Inserted(Empty, rest));
    }
    assert ([Frame(curr, letter)] + ctx)[1..] == ctx;
  }

  /** The paths of `after` are those of `before` and the prefixes of `w`: the
      tree only grew, along `w`. */
  ghost predicate AddsPaths(before: Node, after: Node, w: string)
  {
    forall s :: HasPath(after, s) <==> HasPath(before, s) || s <= w
  }

  /** What insertion does to the stored words and paths, and the invariant it
      keeps. */
  lemma InsertedFacts(n: Node, w: string)
    requires Wf(n) && Pruned(n)
    ensures Wf(Inserted(n, w)) && Pruned(Inserted(n, w))
    ensures Words(Inserted(n, w)) == Words(n) + {w}
    ensures |Words(Inserted(n, w))| <= |Words(n)| + 1
    ensures AddsPaths(n, Inserted(n, w), w)
  {
    InsertedValid(n, w);
    InsertedWords(n, w);
    forall s
      ensures HasPath(Inserted(n, w), s) <==> HasPath(n, s) || s <= w
    {
      InsertedPaths(n, w, s);
    }
  }

  /** `before` and `after` have the same paths: no edge was added or
      removed. */
  ghost predicate SamePaths(before: Node, after: Node)
  {
    forall s :: HasPath(after, s) <==> HasPath(before, s)
  }

  /** A subset is no larger than its superset. */
  lemma {:induction false} SubsetSize<T>(a: set<T>, b: set<T>)
    requires a <= b
    ensures |a| <= |b|
    decreases |a|
  {
    if a != {} {
      var x :| x in a;
      SubsetSize(a - {x}, b - {x});
    }
  }

  /** What deleting a stored word does to the stored words and paths, and
      the invariant it keeps. */
  lemma DeletedFacts(n: Node, w: string)
    requires Wf(n) && Pruned(n) && Contains(n, w)
    ensures Wf(DeleteFrom(n, w).0) && Pruned(DeleteFrom(n, w).0)
    ensures RemovesAsWritten(n, DeleteFrom(n, w).0, w)
    ensures !Contains(DeleteFrom(n, w).0, w)
    ensures |Words(DeleteFrom(n, w).0)| < |Words(n)|
    ensures Find(n, w).value.children != [] ==> SamePaths(n, DeleteFrom(n, w).0)
    ensures Find(n, w).value.children != [] ==> Words(DeleteFrom(n, w).0) == Words(n) - {w}
  {
    var n' := DeleteFrom(n, w).0;
    DeleteFromSpec(n, w);
    forall s
      ensures s in Words(n') ==> s in Words(n) - {w}
    {
      WordsContains(n, s);
      WordsContains(n', s);
    }
    WordsContains(n, w);
    SubsetSize(Words(n'), Words(n) - {w});
    if Find(n, w).value.children != [] {
      DeleteFromKeepsPaths(n, w);
      forall s
        ensures s in Words(n') <==> s in Words(n) - {w}
      {
        WordsContains(n, s);
        WordsContains(n', s);
      }
    }
  }

  /** What the corrected deletion of a stored word does to the stored words,
      and the invariant it keeps. */
  lemma FixedDeletedFacts(n: Node, w: string)
    requires Wf(n) && Pruned(n) && Contains(n, w)
    ensures Wf(DeleteFromFixed(n, w).0) && Pruned(DeleteFromFixed(n, w).0)
    ensures Words(DeleteFromFixed(n, w).0) == Words(n) - {w}
    ensures |Words(DeleteFromFixed(n, w).0)| == |Words(n)| - 1
  {
    var n' := DeleteFromFixed(n, w).0;
    DeleteFromFixedSpec(n, w);
    forall s
      ensures s in Words(n') <==> s in Words(n) - {w}
    {
      WordsContains(n, s);
      WordsContains(n', s);
    }
    WordsContains(n, w);
  }

  class Trie {
    var root: Node
    var count: int

    /** The trie invariant: unique edge labels, no dead branch below the root,
        and a counter at least the number of stored words (duplicate inserts
        count twice). */
    ghost predicate Valid()
      reads this
    {
      Wf(root) && Pruned(root) && |Words(root)| <= count
    }

    /** `Trie()`: an empty root and a zero count. */
    constructor ()
      ensures Valid()
      ensures root == Empty && count == 0
      ensures Words(root) == {}
    {
      root := Empty;
      count := 0;
      new;
      assert Enumerate(Empty, []) == [];
    }

    /** `insert(word)`: walks `w` from the root, creating each missing child,
        marks the last node as a leaf and increments the counter, also when
        `w` was already stored. */
    method Insert(w: string)
      requires Valid()
      modifies this
      ensures Valid()
      ensures root == Inserted(old(root), w)
      ensures count == old(count) + 1
      ensures Words(root) == old(Words(root)) + {w}
      ensures AddsPaths(old(root), root, w)
    {
      var curr := root;
      var ctx: seq<Frame> := [];
      for i := 0 to |w|
        modifies {}
        invariant Plug(ctx, Inserted(curr, w[i..])) == Inserted(old(root), w)
      {
        var letter := w[i];
        CursorStep(ctx, curr, w, i);
        if Lookup(curr.children, letter).None? {
          curr := curr.(children := Put(curr.children, letter, Empty));
        }
        var child := Lookup(curr.children, letter).value;
        ctx := [Frame(curr, letter)] + ctx;
        curr := child;
      }
      assert w[|w|..] == [];
      assert Inserted(curr, []) == curr.(leaf := true);
      curr := curr.(leaf := true);
      InsertedFacts(old(root), w);
      root := Plug(ctx, curr);
      count := count + 1;
    }
  
    /** `search(word)`: walks `w` from the root and fails as soon as an edge
        is missing; otherwise reports the leaf flag of the node reached. */
    method Search(w: string) returns (found: bool)
      requires Valid()
      ensures found == Contains(root, w)
      ensures found <==> w in Words(root)
    {
      WordsContains(root, w);
      var node := root;
      for i := 0 to |w|
        invariant Find(node, w[i..]) == Find(root, w)
      {
        assert w[i..][0] == w[i] && w[i..][1..] == w[i + 1..];
        var next := Lookup(node.children, w[i]);
        if next.None? {
          return false;
        }
        node := next.value;
      }
      assert w[|w|..] == [];
      return node.leaf;
    }

    /** `getAllWords()`: every stored word, each once, in depth-first order
        of the children; "" is included when the root is a leaf. */
    method GetAllWords() returns (words: seq<string>)
      requires Valid()
      ensures words == Enumerate(root, [])
      ensures forall s :: s in words <==> Contains(root, s)
      ensures Distinct(words)
    {
      words := CollectWords(root, [], []);
      forall s
        ensures s in words <==> Contains(root, s)
      {
        WordsContains(root, s);
      }
      EnumerateDistinct(root, []);
    }

    /** `getAllPrefixes(prefix)`: walks `p` from the root and returns [] as
        soon as an edge is missing; otherwise every stored word starting with
        `p`, each once. */
    method GetAllPrefixes(p: string) returns (words: seq<string>)
      requires Valid()
      ensures Find(root, p).None? ==> words == []
      ensures Find(root, p).Some? ==> words == Enumerate(Find(root, p).value, p)
      ensures forall s :: s in words <==> p <= s && Contains(root, s)
      ensures Distinct(words)
    {
      forall s
        ensures Find(root, p).None? ==> !(p <= s && Contains(root, s))
        ensures Find(root, p).Some? ==> (s in Enumerate(Find(root, p).value, p) <==> p <= s && Contains(root, s))
      {
        PrefixWords(root, p, s);
      }
      var node := root;
      for i := 0 to |p|
        invariant Find(node, p[i..]) == Find(root, p)
      {
        assert p[i..][0] == p[i] && p[i..][1..] == p[i + 1..];
        var next := Lookup(node.children, p[i]);
        if next.None? {
          return [];
        }
        node := next.value;
      }
      assert p[|p|..] == [];
      FindWf(root, p);
      EnumerateDistinct(node, p);
      words := CollectWords(node, p, []);
    }

    /** `delete(word)`: returns false and changes nothing when `w` is not
        stored; otherwise runs `_delete` from the root, decrements the counter
        and returns true. */
    method Delete(w: string) returns (deleted: bool)
      requires Valid()
      modifies this
      ensures Valid()
      ensures deleted == old(Contains(root, w))
      ensures !deleted ==> root == old(root) && count == old(count)
      ensures deleted ==> root == DeleteFrom(old(root), w).0 && count == old(count) - 1
      ensures deleted ==> RemovesAsWritten(old(root), root, w)
      ensures deleted && old(Find(root, w)).value.children != [] ==> SamePaths(old(root), root)
      ensures deleted && old(Find(root, w)).value.children != [] ==> Words(root) == old(Words(root)) - {w}
      ensures !Contains(root, w)
    {
      var found := Search(w);
      if !found {
        return false;
      }
      DeletedFacts(root, w);
      var (r, _) := DeleteFrom(root, w);
      root := r;
      count := count - 1;
      return true;
    }

    /** `delete(word)` running the corrected `_delete`, which also consults
        the leaf flag on the way back: exactly `w` stops being stored. */
    method DeleteFixed(w: string) returns (deleted: bool)
      requires Valid()
      modifies this
      ensures Valid()
      ensures deleted == old(Contains(root, w))
      ensures !deleted ==> root == old(root) && count == old(count)
      ensures deleted ==> root == DeleteFromFixed(old(root), w).0 && count == old(count) - 1
      ensures Words(root) == old(Words(root)) - {w}
    {
      var found := Search(w);
      if !found {
        return false;
      }
      FixedDeletedFacts(root, w);
      var (r, _) := DeleteFromFixed(root, w);
      root := r;
      count := count - 1;
      return true;
    }
  }
}
