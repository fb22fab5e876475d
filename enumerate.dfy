/** Depth-first enumeration of stored words (`getAllWordsFromSubtree`). */
module TrieEnumerate {
  import opened TrieNode

  /** The words a depth-first walk of `n` collects, each prefixed by `p`: the
      node's own word first when it is a leaf, then every child's words in the
      order of the children. */
  function Enumerate(n: Node, p: string): seq<string>
    decreases n, 1
  {
    (if n.leaf then [p] else []) + EnumChildren(n, p, |n.children|)
  }

  /** The words collected from the first `k` children of `n`. */
  function EnumChildren(n: Node, p: string, k: nat): seq<string>
    requires k <= |n.children|
    decreases n, 0, k
  {
    if k == 0 then []
    else
      var (c, child) := n.children[k - 1];
      EnumChildren(n, p, k - 1) + Enumerate(child, p + [c])
  }

  /** The set of words stored in the tree rooted at `n`. */
  ghost function Words(n: Node): set<string>
  {
    set s | s in Enumerate(n, [])
  }

  /** No string occurs twice. */
  ghost predicate Distinct(ws: seq<string>)
  {
    forall i, j :: 0 <= i < j < |ws| ==> ws[i] != ws[j]
  }

  /** A string is collected from `n` with prefix `p` exactly when it extends
      `p` by a word stored below `n`. */
  lemma {:induction false} EnumerateMembers(n: Node, p: string, s: string)
    requires Wf(n)
    ensures s in Enumerate(n, p) <==> p <= s && Contains(n, s[|p|..])
    decreases n, 1
  {
    EnumChildrenMembers(n, p, |n.children|, s);
    if s == p {
      assert s[|p|..] == [];
    }
  }

  /** A string is collected from the first `k` children when it extends `p`
      by a word stored below `n` whose first character labels one of them. */
  lemma {:induction false} EnumChildrenMembers(n: Node, p: string, k: nat, s: string)
    requires Wf(n) && k <= |n.children|
    ensures s in EnumChildren(n, p, k) <==>
      |p| < |s| && p <= s && KeyIndex(n.children, s[|p|]) < k && Contains(n, s[|p|..])
    decreases n, 0, k
  {
    if k > 0 {
      var (c, child) := n.children[k - 1];
      assert n.children[k - 1] in n.children;
      EnumChildrenMembers(n, p, k - 1, s);
      EnumerateMembers(child, p + [c], s);
      KeyIndexIs(n.children, c, k - 1);
      StepPrefix(p, c, s);
      if |p| < |s| {
        ContainsHead(n, s[|p|..]);
      }
    }
  }

  /** `s` extends `p + [c]` exactly when it extends `p` by at least `c`; the
      rest of `s` after `p` then starts with `c`, followed by the rest after
      `p + [c]`. */
  lemma StepPrefix(p: string, c: char, s: string)
    ensures p + [c] <= s <==> |p| < |s| && p <= s && s[|p|] == c
    ensures |p| < |s| ==> s[|p|..] != [] && s[|p|..][0] == s[|p|] && s[|p|..][1..] == s[|p + [c]|..]
  {
    if |p| < |s| && p <= s && s[|p|] == c {
      assert s[..|p| + 1] == p + [c];
    }
  }

  /** Exactly the stored words are enumerated from the root. */
  lemma WordsContains(n: Node, s: string)
    requires Wf(n)
    ensures s in Words(n) <==> Contains(n, s)
  {
    EnumerateMembers(n, [], s);
    assert s[0..] == s;
  }

  /** The words collected below the node of `p`, prefixed by `p`, are exactly
      the stored words that start with `p`; when `p` has no path, no stored
      word starts with `p`. */
  lemma PrefixWords(n: Node, p: string, s: string)
    requires Wf(n) && Pruned(n)
    ensures Find(n, p).None? ==> !(p <= s && Contains(n, s))
    ensures Find(n, p).Some? ==> (s in Enumerate(Find(n, p).value, p) <==> p <= s && Contains(n, s))
  {
    if p <= s {
      assert s == p + s[|p|..];
      FindAppend(n, p, s[|p|..]);
    }
    if Find(n, p).Some? {
      FindWf(n, p);
      EnumerateMembers(Find(n, p).value, p, s);
    }
  }

  /** Concatenating two duplicate-free, disjoint sequences gives a
      duplicate-free one. */
  lemma DistinctAppend(a: seq<string>, b: seq<string>)
    requires Distinct(a) && Distinct(b)
    requires forall x :: x in a ==> x !in b
    ensures Distinct(a + b)
  {
    forall i, j | 0 <= i < j < |a + b|
      ensures (a + b)[i] != (a + b)[j]
    {
      if i < |a| && |a| <= j {
        assert (a + b)[i] in a && (a + b)[j] in b;
      }
    }
  }

  /** Each stored word is enumerated exactly once. */
  lemma {:induction false} EnumerateDistinct(n: Node, p: string)
    requires Wf(n)
    ensures Distinct(Enumerate(n, p))
    decreases n, 1
  {
    EnumChildrenDistinct(n, p, |n.children|);
    var head := if n.leaf then [p] else [];
    forall x | x in head
      ensures x !in EnumChildren(n, p, |n.children|)
    {
      EnumChildrenMembers(n, p, |n.children|, x);
    }
    DistinctAppend(head, EnumChildren(n, p, |n.children|));
  }

  /** The words collected from the first `k` children are pairwise distinct. */
  lemma {:induction false} EnumChildrenDistinct(n: Node, p: string, k: nat)
    requires Wf(n) && k <= |n.children|
    ensures Distinct(EnumChildren(n, p, k))
    decreases n, 0, k
  {
    if k > 0 {
      var (c, child) := n.children[k - 1];
      assert n.children[k - 1] in n.children;
      EnumChildrenDistinct(n, p, k - 1);
      EnumerateDistinct(child, p + [c]);
      KeyIndexIs(n.children, c, k - 1);
      forall x | x in EnumChildren(n, p, k - 1)
        ensures x !in Enumerate(child, p + [c])
      {
        EnumChildrenMembers(n, p, k - 1, x);
        EnumerateMembers(child, p + [c], x);
      }
      DistinctAppend(EnumChildren(n, p, k - 1), Enumerate(child, p + [c]));
    }
  }

  /** `getAllWordsFromSubtree(node, prefix, allWords)`: appends to `acc` every
      word stored below `node`, prefixed by `prefix`, in depth-first order. */
  method CollectWords(node: Node, prefix: string, acc: seq<string>) returns (all: seq<string>)
    ensures all == acc + Enumerate(node, prefix)
    decreases node
  {
    all := acc;
    if node.leaf {
      all := all + [prefix];
    }
    var i := 0;
    while i < |node.children|
      invariant i <= |node.children|
      invariant all == acc + (if node.leaf then [prefix] else []) + EnumChildren(node, prefix, i)
    {
      var (letter, child) := node.children[i];
      all := CollectWords(child, prefix + [letter], all);
      i := i + 1;
    }
  }
}
