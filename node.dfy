/** Trie nodes (the `Node` class of comp_trie/trie.py) as values.
    A node's `children` dictionary is an association list in insertion order:
    Python dictionaries iterate in insertion order, an assignment to an existing
    key keeps its position, and `del` closes the gap. */
module TrieNode {

  datatype Option<T> = None | Some(value: T)

  /** A node: its child edges, each labelled by one character, and the flag
      that marks the end of a stored word. */
  datatype Node = Node(children: seq<(char, Node)>, leaf: bool)

  /** A freshly created node: no children, not the end of a word. */
  const Empty := Node([], false)

  /** No two edges of one node carry the same character, as in a dictionary. */
  predicate UniqueKeys(cs: seq<(char, Node)>)
  {
    forall i, j :: 0 <= i < j < |cs| ==> cs[i].0 != cs[j].0
  }

  /** The position of the edge labelled `c`, or |cs| when there is none. */
  function KeyIndex(cs: seq<(char, Node)>, c: char): (k: nat)
    ensures k <= |cs|
    ensures k < |cs| ==> cs[k].0 == c
    ensures forall j :: 0 <= j < k ==> cs[j].0 != c
  {
    if cs == [] then 0
    else if cs[0].0 == c then 0
    else 1 + KeyIndex(cs[1..], c)
  }

  /** `c in node.children` and `node.children[c]`. */
  function Lookup(cs: seq<(char, Node)>, c: char): (r: Option<Node>)
    ensures r.None? <==> forall e :: e in cs ==> e.0 != c
    ensures r.Some? ==> (c, r.value) in cs
    ensures UniqueKeys(cs) ==> forall e :: e in cs && e.0 == c ==> r == Some(e.1)
  {
    var k := KeyIndex(cs, c);
    if k < |cs| then
      assert cs[k] == (c, cs[k].1);
      Some(cs[k].1)
    else
      None
  }

  /** `children[c] = m`: replaces the edge labelled `c` where it stands, or
      appends a new edge at the end. */
  function Put(cs: seq<(char, Node)>, c: char, m: Node): (r: seq<(char, Node)>)
    ensures Lookup(r, c) == Some(m)
    ensures forall d :: d != c ==> Lookup(r, d) == Lookup(cs, d)
    ensures forall e :: e in r ==> e == (c, m) || e in cs
    ensures forall e :: e in cs && e.0 != c ==> e in r
    ensures UniqueKeys(cs) ==> UniqueKeys(r)
    ensures r != []
  {
    var k := KeyIndex(cs, c);
    var r := if k < |cs| then cs[k := (c, m)] else cs + [(c, m)];
    WriteLookups(cs, c, m, k, r);
    WriteEntries(cs, c, m, k, r);
    r
  }

  /** Lookups after writing `(c, m)` at the key's index (or at the end). */
  lemma WriteLookups(cs: seq<(char, Node)>, c: char, m: Node, k: nat, r: seq<(char, Node)>)
    requires k == KeyIndex(cs, c)
    requires r == if k < |cs| then cs[k := (c, m)] else cs + [(c, m)]
    ensures Lookup(r, c) == Some(m)
    ensures forall d :: d != c ==> Lookup(r, d) == Lookup(cs, d)
  {
    KeyIndexIs(r, c, k);
    forall d | d != c
      ensures Lookup(r, d) == Lookup(cs, d)
    {
      var kd := KeyIndex(cs, d);
      if kd < |cs| {
        KeyIndexIs(r, d, kd);
      } else {
        KeyIndexIs(r, d, |r|);
      }
    }
  }

  /** The entries after writing `(c, m)` at the key's index (or at the end). */
  lemma WriteEntries(cs: seq<(char, Node)>, c: char, m: Node, k: nat, r: seq<(char, Node)>)
    requires k == KeyIndex(cs, c)
    requires r == if k < |cs| then cs[k := (c, m)] else cs + [(c, m)]
    ensures forall e :: e in r ==> e == (c, m) || e in cs
    ensures forall e :: e in cs && e.0 != c ==> e in r
    ensures UniqueKeys(cs) ==> UniqueKeys(r)
  {
    forall e | e in cs && e.0 != c
      ensures e in r
    {
      var j :| 0 <= j < |cs| && cs[j] == e;
      assert r[j] == e;
    }
  }

  /** Writing the same key twice leaves only the second write. */
  lemma PutPut(cs: seq<(char, Node)>, c: char, a: Node, b: Node)
    ensures Put(Put(cs, c, a), c, b) == Put(cs, c, b)
  {
    var k := KeyIndex(cs, c);
    KeyIndexIs(Put(cs, c, a), c, k);
  }

  /** `k` is the key's index when it holds the key, or is the end, and no
      earlier position holds it. */
  lemma {:induction false} KeyIndexIs(cs: seq<(char, Node)>, c: char, k: nat)
    requires k <= |cs| && (k < |cs| ==> cs[k].0 == c)
    requires forall j :: 0 <= j < k ==> cs[j].0 != c
    ensures KeyIndex(cs, c) == k
  {
    if k > 0 {
      KeyIndexIs(cs[1..], c, k - 1);
    }
  }

  /** `del children[c]`: removes the edge labelled `c`, keeping the order of
      the others. */
  function Remove(cs: seq<(char, Node)>, c: char): (r: seq<(char, Node)>)
    ensures forall d :: d != c ==> Lookup(r, d) == Lookup(cs, d)
    ensures forall e :: e in r ==> e in cs
    ensures UniqueKeys(cs) ==> && UniqueKeys(r)
                               && Lookup(r, c) == None
                               && (forall e :: e in cs && e.0 != c ==> e in r)
                               && (r == [] <==> forall e :: e in cs ==> e.0 == c)
  {
    var k := KeyIndex(cs, c);
    var r := if k < |cs| then cs[..k] + cs[k + 1..] else cs;
    DropLookups(cs, c, k, r);
    DropEntries(cs, c, k, r);
    r
  }

  /** Lookups after dropping the entry at the key's index (if any). */
  lemma DropLookups(cs: seq<(char, Node)>, c: char, k: nat, r: seq<(char, Node)>)
    requires k == KeyIndex(cs, c)
    requires r == if k < |cs| then cs[..k] + cs[k + 1..] else cs
    ensures forall d :: d != c ==> Lookup(r, d) == Lookup(cs, d)
  {
    forall d | d != c
      ensures Lookup(r, d) == Lookup(cs, d)
    {
      var kd := KeyIndex(cs, d);
      if k < |cs| {
        if kd < k {
          KeyIndexIs(r, d, kd);
        } else {
          assert kd != k;
          KeyIndexIs(r, d, kd - 1);
        }
      }
    }
  }

  /** The entries after dropping the entry at the key's index (if any). */
  lemma DropEntries(cs: seq<(char, Node)>, c: char, k: nat, r: seq<(char, Node)>)
    requires k == KeyIndex(cs, c)
    requires r == if k < |cs| then cs[..k] + cs[k + 1..] else cs
    ensures forall e :: e in r ==> e in cs
    ensures UniqueKeys(cs) ==> && UniqueKeys(r)
                               && (forall e :: e in r ==> e.0 != c)
                               && (forall e :: e in cs && e.0 != c ==> e in r)
                               && (r == [] <==> forall e :: e in cs ==> e.0 == c)
  {
  }

  /** `a` extends `b` exactly when both, preceded by the same character, do. */
  lemma PrefixCons(c: char, s: string, w: string)
    ensures [c] + s <= [c] + w <==> s <= w
    ensures [c] + s < [c] + w <==> s < w
  {
    if |s| <= |w| {
      var a, b := [c] + s, ([c] + w)[..|s| + 1];
      assert b == [c] + w[..|s|];
      assert a[1..] == s && b[1..] == w[..|s|];
      assert a == b <==> s == w[..|s|];
    }
  }

  /** Two strings with the same first character compare as their tails do:
      `PrefixCons` for strings indexed by position rather than written as
      `[c] + s`. */
  lemma PrefixHead(s: string, w: string)
    requires 0 < |s| && 0 < |w| && s[0] == w[0]
    ensures s <= w <==> s[1..] <= w[1..]
    ensures s < w <==> s[1..] < w[1..]
    ensures s == w <==> s[1..] == w[1..]
  {
    PrefixCons(s[0], s[1..], w[1..]);
    assert s == [s[0]] + s[1..] && w == [w[0]] + w[1..];
  }

  /** Every node of the tree has unique edge labels. */
  ghost predicate Wf(n: Node)
    decreases n
  {
    && UniqueKeys(n.children)
    && forall e :: e in n.children ==> Wf(e.1)
  }

  /** No node below `n` is both childless and not the end of a word: such a
      node carries no word and would have been pruned. `n` itself is exempt,
      as the root of a trie is. */
  ghost predicate Pruned(n: Node)
    decreases n
  {
    forall e :: e in n.children ==> (e.1.leaf || e.1.children != []) && Pruned(e.1)
  }

  /** The node reached from `n` by following the characters of `s`, if every
      edge exists. */
  function Find(n: Node, s: string): Option<Node>
    decreases |s|
  {
    if s == [] then Some(n)
    else
      match Lookup(n.children, s[0])
      case None => None
      case Some(m) => Find(m, s[1..])
  }

  /** A path spelling `s` exists below `n`. */
  predicate HasPath(n: Node, s: string)
  {
    Find(n, s).Some?
  }

  /** `s` is stored below `n`: its path exists and ends at a leaf. */
  predicate Contains(n: Node, s: string)
  {
    Find(n, s).Some? && Find(n, s).value.leaf
  }

  /** A non-empty word is stored below `n` when its tail is stored below the
      child labelled by its first character. */
  lemma ContainsHead(n: Node, s: string)
    requires s != []
    ensures Contains(n, s) <==>
      Lookup(n.children, s[0]).Some? && Contains(Lookup(n.children, s[0]).value, s[1..])
  {
  }

  /** A non-empty path exists below `n` when its tail exists below the child
      labelled by its first character. */
  lemma HasPathHead(n: Node, s: string)
    requires s != []
    ensures HasPath(n, s) <==>
      Lookup(n.children, s[0]).Some? && HasPath(Lookup(n.children, s[0]).value, s[1..])
  {
  }

  /** Walking `p` and then `s` is walking `p + s`. */
  lemma {:induction false} FindAppend(n: Node, p: string, s: string)
    ensures Find(n, p + s) == match Find(n, p) case None => None case Some(m) => Find(m, s)
    decreases |p|
  {
    if p == [] {
      assert p + s == s;
    } else {
      assert (p + s)[0] == p[0] && (p + s)[1..] == p[1..] + s;
      match Lookup(n.children, p[0])
      case None =>
      case Some(m) => FindAppend(m, p[1..], s);
    }
  }

  /** Subtrees of a well-formed, pruned tree are well-formed and pruned. */
  lemma {:induction false} FindWf(n: Node, s: string)
    requires Wf(n) && Pruned(n) && HasPath(n, s)
    ensures Wf(Find(n, s).value) && Pruned(Find(n, s).value)
    decreases |s|
  {
    if s != [] {
      var m := Lookup(n.children, s[0]).value;
      FindWf(m, s[1..]);
    }
  }

  /** A node that is a leaf or has children stores at least one word, when
      everything below it is pruned. */
  lemma {:induction false} StoresSomeWord(n: Node) returns (t: string)
    requires Pruned(n) && (n.leaf || n.children != [])
    ensures Contains(n, t)
    decreases n
  {
    if n.leaf {
      t := [];
    } else {
      var c := n.children[0].0;
      assert n.children[0] in n.children;
      var m := Lookup(n.children, c).value;
      var t' := StoresSomeWord(m);
      t := [c] + t';
      assert t[1..] == t';
    }
  }
}
