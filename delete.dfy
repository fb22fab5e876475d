/** The recursive helper `Trie._delete`, as written and as evidently
    intended. */
module TrieDelete {
  import opened TrieNode
  import opened TrieEnumerate

  /** `_delete(node, word, index)` on the remaining suffix `w = word[index:]`:
      returns the node after the call and the flag the call returns. At the
      end of the word the leaf flag is cleared and the flag says whether the
      node is childless. On the way back, a child whose call returned true is
      unlinked, and the flag says whether this node is now childless -- its
      own leaf flag is not consulted. */
  function DeleteFrom(n: Node, w: string): (Node, bool)
    requires HasPath(n, w)
    decreases |w|
  {
    if w == [] then
      (n.(leaf := false), n.children == [])
    else
      var c := w[0];
      var child := Lookup(n.children, c).value;
      var (child', shouldDelete) := DeleteFrom(child, w[1..]);
      if shouldDelete then
        var cs := Remove(n.children, c);
        (n.(children := cs), cs == [])
      else
        (n.(children := Put(n.children, c, child')), false)
  }

  /** Every word stored below `n` is a prefix of `w`: the subtree is a single
      branch along `w`. */
  ghost predicate OnlyPrefixesOf(n: Node, w: string)
  {
    forall t :: Contains(n, t) ==> t <= w
  }

  /** `s` is a non-empty proper prefix of `w` such that every word stored
      below `s` is a prefix of `w`: no other branch leaves the path of `w`
      at or below the node of `s`, so deleting `w` prunes that node. */
  ghost predicate Doomed(n: Node, s: string, w: string)
  {
    && 0 < |s|
    && s < w
    && forall t :: Contains(n, t) && s <= t ==> t <= w
  }

  /** `after` stores exactly what `before` stored, except `w` and the
      proper prefixes of `w` that deleting `w` prunes. */
  ghost predicate RemovesAsWritten(before: Node, after: Node, w: string)
  {
    forall s :: Contains(after, s) <==> Contains(before, s) && s != w && !Doomed(before, s, w)
  }

  /** Deleting a stored word keeps every other stored word that is not a
      proper prefix of it. */
  lemma DeleteKeepsOtherWords(n: Node, w: string, s: string)
    requires Wf(n) && Pruned(n) && HasPath(n, w)
    requires Contains(n, s) && s != w && !(s < w)
    ensures Contains(DeleteFrom(n, w).0, s)
  {
    DeleteFromSpec(n, w);
  }

  /** `ContainsHead` for a word written as `[c] + s`, the form in which the
      enumeration builds the words of a child. */
  lemma ContainsCons(n: Node, c: char, s: string)
    ensures Contains(n, [c] + s) <==>
      Lookup(n.children, c).Some? && Contains(Lookup(n.children, c).value, s)
  {
    ContainsHead(n, [c] + s);
    assert ([c] + s)[0] == c && ([c] + s)[1..] == s;
  }

  /** A child's stored words, extended by its label, are stored in the parent. */
  lemma {:induction false} DoomedCons(n: Node, c: char, child: Node, s: string, w: string)
    requires Lookup(n.children, c) == Some(child)
    ensures Doomed(n, [c] + s, [c] + w) <==>
      (if s == [] then 0 < |w| && OnlyPrefixesOf(child, w) else Doomed(child, s, w))
  {
    var all := forall t :: Contains(n, t) && [c] + s <= t ==> t <= [c] + w;
    var sub := forall t :: Contains(child, t) && s <= t ==> t <= w;
    PrefixCons(c, s, w);
    if all {
      forall t | Contains(child, t) && s <= t
        ensures t <= w
      {
        ContainsCons(n, c, t);
        PrefixCons(c, s, t);
        PrefixCons(c, t, w);
      }
    }
    if sub {
      forall t | Contains(n, t) && [c] + s <= t
        ensures t <= [c] + w
      {
        var t' := t[1..];
        assert t == [c] + t';
        ContainsCons(n, c, t');
        PrefixCons(c, s, t');
        PrefixCons(c, t', w);
      }
    }
    assert all <==> sub;
  }

  /** Some word stored below `n` starts with the label `d` of one of its
      children. */
  lemma OtherBranch(n: Node, d: char) returns (t: string)
    requires Pruned(n) && Lookup(n.children, d).Some?
    ensures Contains(n, t) && 0 < |t| && t[0] == d
  {
    var m := Lookup(n.children, d).value;
    var t' := StoresSomeWord(m);
    t := [d] + t';
    ContainsCons(n, d, t');
  }

  /** Unlinking a child keeps the tree well-formed and pruned. */
  lemma RemoveValid(n: Node, c: char)
    requires Wf(n) && Pruned(n)
    ensures Wf(n.(children := Remove(n.children, c)))
    ensures Pruned(n.(children := Remove(n.children, c)))
  {
  }

  /** Replacing a child by a well-formed, pruned node that stores something
      keeps the tree well-formed and pruned. */
  lemma PutValid(n: Node, c: char, m: Node)
    requires Wf(n) && Pruned(n) && Wf(m) && Pruned(m) && (m.leaf || m.children != [])
    ensures Wf(n.(children := Put(n.children, c, m)))
    ensures Pruned(n.(children := Put(n.children, c, m)))
  {
  }

  /** What `_delete` does, exactly. The tree stays well-formed and pruned;
      the returned flag is true exactly when the node is left childless, and
      exactly when every word below it was a prefix of `w`; and a word stays
      stored exactly when it was stored, is not `w`, and is not a proper
      prefix of `w` whose node lies on a branch-free stretch ending at `w`. */
  lemma {:induction false} DeleteFromSpec(n: Node, w: string)
    requires Wf(n) && Pruned(n) && HasPath(n, w)
    ensures var (n', gone) := DeleteFrom(n, w);
      && Wf(n') && Pruned(n')
      && (gone <==> n'.children == [])
      && (gone <==> OnlyPrefixesOf(n, w))
      && forall s :: Contains(n', s) <==> Contains(n, s) && s != w && !Doomed(n, s, w)
    decreases |w|
  {
    var (n', gone) := DeleteFrom(n, w);
    if w == [] {
      if n.children != [] {
        assert n.children[0] in n.children;
        var t := OtherBranch(n, n.children[0].0);
      }
      forall s
        ensures Contains(n', s) <==> Contains(n, s) && s != w && !Doomed(n, s, w)
      {
        ClearLeafAt(n, s);
      }
    } else {
      var child := Lookup(n.children, w[0]).value;
      assert (w[0], child) in n.children;
      var (child', gc) := DeleteFrom(child, w[1..]);
      DeleteFromSpec(child, w[1..]);
      if gc {
        RemoveValid(n, w[0]);
        UnlinkFlag(n, w, child);
        forall s
          ensures Contains(n', s) <==> Contains(n, s) && s != w && !Doomed(n, s, w)
        {
          UnlinkAt(n, w, child, s);
        }
      } else {
        PutValid(n, w[0], child');
        OtherWordBelow(n, w, child);
        forall s
          ensures Contains(n', s) <==> Contains(n, s) && s != w && !Doomed(n, s, w)
        {
          KeepAt(n, w, child, child', s);
        }
      }
    }
  }

  /** One word, after the leaf flag at the end of the empty rest was
      cleared. */
  lemma ClearLeafAt(n: Node, s: string)
    ensures Contains(n.(leaf := false), s) <==> Contains(n, s) && s != [] && !Doomed(n, s, [])
  {
    if s != [] {
      ContainsHead(n, s);
      ContainsHead(n.(leaf := false), s);
    }
  }

  /** A word below the child on the path of `w` that is not a prefix of the
      rest of `w` gives, extended by the label, a word below `n` that is not
      a prefix of `w`. */
  lemma OtherWordBelow(n: Node, w: string, child: Node)
    requires 0 < |w| && Lookup(n.children, w[0]) == Some(child)
    requires !OnlyPrefixesOf(child, w[1..])
    ensures !OnlyPrefixesOf(n, w)
  {
    var t' :| Contains(child, t') && !(t' <= w[1..]);
    ContainsCons(n, w[0], t');
    var t := [w[0]] + t';
    assert t[0] == w[0] && t[1..] == t';
    PrefixHead(t, w);
  }

  /** After unlinking the child on the path of `w`, the node is childless
      exactly when every word below it was a prefix of `w`. */
  lemma UnlinkFlag(n: Node, w: string, child: Node)
    requires Wf(n) && Pruned(n) && 0 < |w| && Lookup(n.children, w[0]) == Some(child)
    requires OnlyPrefixesOf(child, w[1..])
    ensures Remove(n.children, w[0]) == [] <==> OnlyPrefixesOf(n, w)
  {
    var cs := Remove(n.children, w[0]);
    if cs == [] {
      forall t | Contains(n, t)
        ensures t <= w
      {
        if t != [] {
          ContainsHead(n, t);
          assert (t[0], Lookup(n.children, t[0]).value) in n.children;
          PrefixHead(t, w);
        }
      }
    } else {
      assert cs[0] in cs;
      var t := OtherBranch(n, cs[0].0);
    }
  }

  /** `s` and `w` start with the label of `child`: `s` is doomed below `n`
      exactly when its tail is doomed below `child`, or, for a one-character
      `s`, when `w` is longer and `child` stores only prefixes of its tail. */
  lemma DoomedHead(n: Node, child: Node, s: string, w: string)
    requires 0 < |s| && 0 < |w| && s[0] == w[0] && Lookup(n.children, w[0]) == Some(child)
    ensures Doomed(n, s, w) <==>
      (if |s| == 1 then 1 < |w| && OnlyPrefixesOf(child, w[1..]) else Doomed(child, s[1..], w[1..]))
  {
    assert s == [s[0]] + s[1..] && w == [w[0]] + w[1..];
    DoomedCons(n, w[0], child, s[1..], w[1..]);
  }

  /** One word, after the child on the path of `w` was unlinked. */
  lemma UnlinkAt(n: Node, w: string, child: Node, s: string)
    requires Wf(n) && 0 < |w| && Lookup(n.children, w[0]) == Some(child)
    requires OnlyPrefixesOf(child, w[1..])
    ensures var n' := n.(children := Remove(n.children, w[0]));
      Contains(n', s) <==> Contains(n, s) && s != w && !Doomed(n, s, w)
  {
    if s != [] {
      ContainsHead(n, s);
      ContainsHead(n.(children := Remove(n.children, w[0])), s);
      if s[0] == w[0] {
        PrefixHead(s, w);
        DoomedHead(n, child, s, w);
      }
    }
  }

  /** One word, after the child on the path of `w` was kept and updated. */
  lemma KeepAt(n: Node, w: string, child: Node, child': Node, s: string)
    requires 0 < |w| && Lookup(n.children, w[0]) == Some(child)
    requires !OnlyPrefixesOf(child, w[1..])
    requires forall s :: Contains(child', s) <==> Contains(child, s) && s != w[1..] && !Doomed(child, s, w[1..])
    ensures var n' := n.(children := Put(n.children, w[0], child'));
      Contains(n', s) <==> Contains(n, s) && s != w && !Doomed(n, s, w)
  {
    if s != [] {
      ContainsHead(n, s);
      ContainsHead(n.(children := Put(n.children, w[0], child')), s);
      if s[0] == w[0] {
        PrefixHead(s, w);
        DoomedHead(n, child, s, w);
      }
    }
  }

  /** Deleting a word whose end node has children clears that node's leaf
      flag and nothing else: no edge is removed, and exactly `w` stops being
      stored. */
  lemma {:induction false} DeleteFromKeepsPaths(n: Node, w: string)
    requires HasPath(n, w) && Find(n, w).value.children != []
    ensures !DeleteFrom(n, w).1
    ensures forall s :: HasPath(DeleteFrom(n, w).0, s) <==> HasPath(n, s)
    ensures forall s :: Contains(DeleteFrom(n, w).0, s) <==> Contains(n, s) && s != w
    decreases |w|
  {
    if w != [] {
      var child := Lookup(n.children, w[0]).value;
      DeleteFromKeepsPaths(child, w[1..]);
      forall s
        ensures HasPath(DeleteFrom(n, w).0, s) <==> HasPath(n, s)
        ensures Contains(DeleteFrom(n, w).0, s) <==> Contains(n, s) && s != w
      {
        KeepPathAt(n, w, child, DeleteFrom(child, w[1..]).0, s);
        FixedKeepAt(n, w, child, DeleteFrom(child, w[1..]).0, s);
      }
    } else {
      forall s
        ensures Contains(DeleteFrom(n, w).0, s) <==> Contains(n, s) && s != w
      {
        if s != [] {
          ContainsHead(n, s);
          ContainsHead(DeleteFrom(n, w).0, s);
        }
      }
    }
  }

  /** One path, after the child on the path of `w` was replaced by a node
      with the same paths. */
  lemma KeepPathAt(n: Node, w: string, child: Node, child': Node, s: string)
    requires 0 < |w| && Lookup(n.children, w[0]) == Some(child)
    requires forall s :: HasPath(child', s) <==> HasPath(child, s)
    ensures HasPath(n.(children := Put(n.children, w[0], child')), s) <==> HasPath(n, s)
  {
    if s != [] {
      HasPathHead(n, s);
      HasPathHead(n.(children := Put(n.children, w[0], child')), s);
    }
  }

  /** The defect of `_delete`: with "ab" and "abc" stored and no branch
      between them, deleting "abc" also deletes "ab", because the node of
      "ab" is unlinked although it is the end of a word. */
  lemma DeleteDropsStoredPrefix()
    ensures var n := Node([('a', Node([('b', Node([('c', Node([], true))], true))], false))], false);
      && Contains(n, "ab") && Contains(n, "abc")
      && DeleteFrom(n, "abc") == (Node([], false), true)
      && !Contains(DeleteFrom(n, "abc").0, "ab")
  {
    assert "abc"[0] == 'a' && "abc"[1..] == "bc";
    assert "bc"[0] == 'b' && "bc"[1..] == "c";
    assert "c"[0] == 'c' && "c"[1..] == "";
  }

  /** `_delete` with the leaf check the pruning evidently needs: on the way
      back, the node asks to be unlinked only when it is childless AND not
      the end of a word. */
  function DeleteFromFixed(n: Node, w: string): (Node, bool)
    requires HasPath(n, w)
    decreases |w|
  {
    if w == [] then
      (n.(leaf := false), n.children == [])
    else
      var c := w[0];
      var child := Lookup(n.children, c).value;
      var (child', shouldDelete) := DeleteFromFixed(child, w[1..]);
      if shouldDelete then
        var cs := Remove(n.children, c);
        (n.(children := cs), cs == [] && !n.leaf)
      else
        (n.(children := Put(n.children, c, child')), false)
  }

  /** The corrected deletion removes exactly `w`: every other stored word stays
      stored, and the tree stays well-formed and pruned. The returned flag is
      true exactly when the node is left storing nothing. */
  lemma {:induction false} DeleteFromFixedSpec(n: Node, w: string)
    requires Wf(n) && Pruned(n) && HasPath(n, w)
    ensures var (n', gone) := DeleteFromFixed(n, w);
      && Wf(n') && Pruned(n')
      && (gone <==> n'.children == [] && !n'.leaf)
      && forall s :: Contains(n', s) <==> Contains(n, s) && s != w
    decreases |w|
  {
    var (n', gone) := DeleteFromFixed(n, w);
    if w == [] {
      forall s
        ensures Contains(n', s) <==> Contains(n, s) && s != w
      {
        if s != [] {
          ContainsHead(n, s);
          ContainsHead(n', s);
        }
      }
    } else {
      var child := Lookup(n.children, w[0]).value;
      assert (w[0], child) in n.children;
      var (child', gc) := DeleteFromFixed(child, w[1..]);
      DeleteFromFixedSpec(child, w[1..]);
      if gc {
        RemoveValid(n, w[0]);
        forall s
          ensures Contains(n', s) <==> Contains(n, s) && s != w
        {
          FixedUnlinkAt(n, w, child, s);
        }
      } else {
        PutValid(n, w[0], child');
        forall s
          ensures Contains(n', s) <==> Contains(n, s) && s != w
        {
          FixedKeepAt(n, w, child, child', s);
        }
      }
    }
  }

  /** One word, after the corrected deletion unlinked the child on the path
      of `w`: that child stored nothing but the rest of `w`. */
  lemma FixedUnlinkAt(n: Node, w: string, child: Node, s: string)
    requires Wf(n) && 0 < |w| && Lookup(n.children, w[0]) == Some(child)
    requires forall t :: Contains(child, t) ==> t == w[1..]
    ensures Contains(n.(children := Remove(n.children, w[0])), s) <==> Contains(n, s) && s != w
  {
    if s != [] {
      ContainsHead(n, s);
      ContainsHead(n.(children := Remove(n.children, w[0])), s);
      if s[0] == w[0] {
        PrefixHead(s, w);
      }
    }
  }

  /** One word, after the corrected deletion kept and updated the child on
      the path of `w`. */
  lemma FixedKeepAt(n: Node, w: string, child: Node, child': Node, s: string)
    requires 0 < |w| && Lookup(n.children, w[0]) == Some(child)
    requires forall t :: Contains(child', t) <==> Contains(child, t) && t != w[1..]
    ensures Contains(n.(children := Put(n.children, w[0], child')), s) <==> Contains(n, s) && s != w
  {
    if s != [] {
      ContainsHead(n, s);
      ContainsHead(n.(children := Put(n.children, w[0], child')), s);
      if s[0] == w[0] {
        PrefixHead(s, w);
      }
    }
  }
}
