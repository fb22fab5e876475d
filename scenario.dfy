/** The demonstration run of comp_trie/trie.py (`main`) and two runs that
    show the counter and the deletion defect, with their outcomes proved. */
module TrieScenarios {
  import opened TrieNode
  import opened TrieEnumerate
  import opened TrieInsert
  import opened TrieDelete
  import opened Tries

  // The trees the runs below go through, written out.
  const Leaf := Node([], true)
  const A := Node([('a', Leaf)], false)
  const Y := Node([('y', Leaf)], false)
  const XY := Node([('x', Y)], false)
  const CA := Node([('c', A)], false)
  const UnderA := Node([('x', Y), ('b', XY)], false)
  const UnderB := Node([('c', A), ('x', Node([('t', A)], false))], false)
  const T1 := Node([('a', Node([('x', Y)], false))], false)
  const T2 := Node([('a', UnderA)], false)
  const T3 := Node([('a', UnderA), ('b', CA)], false)
  const T4 := Node([('a', UnderA), ('b', UnderB)], false)
  const T5 := Node([('a', Node([('b', XY)], false)), ('b', UnderB)], false)

  /** Enumeration of a leaf without children, of a node with one child and
      of a node with two children. */
  lemma EnumerateLeaf(p: string)
    ensures Enumerate(Leaf, p) == [p]
  {
  }

  lemma EnumerateOne(c: char, m: Node, p: string)
    ensures Enumerate(Node([(c, m)], false), p) == Enumerate(m, p + [c])
  {
    var n := Node([(c, m)], false);
    assert EnumChildren(n, p, 1) == EnumChildren(n, p, 0) + Enumerate(m, p + [c]);
  }

  lemma EnumerateTwo(c: char, m: Node, d: char, k: Node, leaf: bool, p: string)
    ensures Enumerate(Node([(c, m), (d, k)], leaf), p)
         == (if leaf then [p] else []) + Enumerate(m, p + [c]) + Enumerate(k, p + [d])
  {
    var n := Node([(c, m), (d, k)], leaf);
    assert EnumChildren(n, p, 1) == EnumChildren(n, p, 0) + Enumerate(m, p + [c]);
  }

  lemma InsertFreshY()
    ensures Inserted(Empty, "y") == Y
  {
    assert "y"[0] == 'y' && "y"[1..] == "";
  }

  lemma InsertFreshXy()
    ensures Inserted(Empty, "xy") == XY
  {
    assert "xy"[0] == 'x' && "xy"[1..] == "y";
    InsertFreshY();
  }

  lemma InsertAxy()
    ensures Inserted(Empty, "axy") == T1
  {
    assert "axy"[0] == 'a' && "axy"[1..] == "xy";
    InsertFreshXy();
  }

  lemma InsertBxy()
    ensures Inserted(Node([('x', Y)], false), "bxy") == UnderA
  {
    assert "bxy"[0] == 'b' && "bxy"[1..] == "xy";
    assert ChildOrEmpty(Node([('x', Y)], false), 'b') == Empty;
    InsertFreshXy();
    AppendB();
  }

  lemma AppendB()
    ensures Put([('x', Y)], 'b', XY) == [('x', Y), ('b', XY)]
  {
    assert KeyIndex([('x', Y)], 'b') == 1;
  }

  lemma InsertAbxy()
    ensures Inserted(T1, "abxy") == T2
  {
    assert "abxy"[0] == 'a' && "abxy"[1..] == "bxy";
    assert ChildOrEmpty(T1, 'a') == Node([('x', Y)], false);
    InsertBxy();
  }

  lemma InsertBca()
    ensures Inserted(T2, "bca") == T3
  {
    assert "bca"[0] == 'b' && "bca"[1..] == "ca";
    assert ChildOrEmpty(T2, 'b') == Empty;
    InsertFreshCa();
    AppendCa();
  }

  lemma InsertFreshA()
    ensures Inserted(Empty, "a") == A
  {
    assert "a"[0] == 'a' && "a"[1..] == "";
  }

  lemma InsertFreshCa()
    ensures Inserted(Empty, "ca") == CA
  {
    assert "ca"[0] == 'c' && "ca"[1..] == "a";
    InsertFreshA();
  }

  lemma AppendCa()
    ensures Put(T2.children, 'b', CA) == T3.children
  {
    assert KeyIndex(T2.children, 'b') == 1;
  }

  lemma InsertXta()
    ensures Inserted(CA, "xta") == UnderB
  {
    assert "xta"[0] == 'x' && "xta"[1..] == "ta";
    assert ChildOrEmpty(CA, 'x') == Empty;
    InsertFreshTa();
    AppendXta();
  }

  lemma InsertFreshTa()
    ensures Inserted(Empty, "ta") == Node([('t', A)], false)
  {
    assert "ta"[0] == 't' && "ta"[1..] == "a";
    InsertFreshA();
  }

  lemma AppendXta()
    ensures Put(CA.children, 'x', Node([('t', A)], false)) == UnderB.children
  {
    assert KeyIndex(CA.children, 'x') == 1;
  }

  lemma InsertBxta()
    ensures Inserted(T3, "bxta") == T4
  {
    assert "bxta"[0] == 'b' && "bxta"[1..] == "xta";
    assert ChildOrEmpty(T3, 'b') == CA;
    InsertXta();
    ReplaceB();
  }

  lemma ReplaceB()
    ensures Put(T3.children, 'b', UnderB) == T4.children
  {
    assert KeyIndex(T3.children, 'b') == 1;
  }

  lemma EnumerateT4()
    ensures Enumerate(T4, []) == ["axy", "abxy", "bca", "bxta"]
  {
    assert [] + ['a'] == "a" && "a" + ['x'] == "ax" && "ax" + ['y'] == "axy";
    assert "a" + ['b'] == "ab" && "ab" + ['x'] == "abx" && "abx" + ['y'] == "abxy";
    assert [] + ['b'] == "b";
    EnumerateTwo('a', UnderA, 'b', UnderB, false, []);
    EnumerateTwo('x', Y, 'b', XY, false, "a");
    EnumerateOne('y', Leaf, "ax");
    EnumerateLeaf("axy");
    EnumerateOne('x', Y, "ab");
    EnumerateOne('y', Leaf, "abx");
    EnumerateLeaf("abxy");
    EnumerateB();
  }

  lemma EnumerateB()
    ensures Enumerate(UnderB, "b") == ["bca", "bxta"]
  {
    assert "b" + ['c'] == "bc" && "bc" + ['a'] == "bca";
    assert "b" + ['x'] == "bx" && "bx" + ['t'] == "bxt" && "bxt" + ['a'] == "bxta";
    EnumerateTwo('c', A, 'x', Node([('t', A)], false), false, "b");
    EnumerateOne('a', Leaf, "bc");
    EnumerateLeaf("bca");
    EnumerateOne('t', A, "bx");
    EnumerateOne('a', Leaf, "bxt");
    EnumerateLeaf("bxta");
  }

  lemma EnumerateT5()
    ensures Enumerate(T5, []) == ["abxy", "bca", "bxta"]
  {
    assert [] + ['a'] == "a" && "a" + ['b'] == "ab" && "ab" + ['x'] == "abx" && "abx" + ['y'] == "abxy";
    assert [] + ['b'] == "b";
    EnumerateTwo('a', Node([('b', XY)], false), 'b', UnderB, false, []);
    EnumerateOne('b', XY, "a");
    EnumerateOne('x', Y, "ab");
    EnumerateOne('y', Leaf, "abx");
    EnumerateLeaf("abxy");
    EnumerateB();
  }

  lemma DeleteAxy()
    ensures HasPath(T4, "axy") && DeleteFrom(T4, "axy") == (T5, false)
  {
    assert "axy"[0] == 'a' && "axy"[1..] == "xy";
    DeleteXy();
    ReplaceA();
  }

  lemma ReplaceA()
    ensures Lookup(T4.children, 'a') == Some(UnderA)
    ensures Put(T4.children, 'a', Node([('b', XY)], false)) == T5.children
  {
    assert KeyIndex(T4.children, 'a') == 0;
  }

  lemma DeleteXy()
    ensures HasPath(UnderA, "xy") && DeleteFrom(UnderA, "xy") == (Node([('b', XY)], false), false)
  {
    assert "xy"[0] == 'x' && "xy"[1..] == "y";
    DeleteY();
    assert Lookup(UnderA.children, 'x') == Some(Y);
    assert Remove(UnderA.children, 'x') == [('b', XY)];
  }

  lemma DeleteY()
    ensures HasPath(Y, "y") && DeleteFrom(Y, "y") == (Node([], false), true)
  {
    assert "y"[0] == 'y' && "y"[1..] == "";
    assert Find(Leaf, "") == Some(Leaf);
    assert DeleteFrom(Leaf, "") == (Node([], false), true);
    assert Remove(Y.children, 'y') == [];
  }

  /** The words `main()` inserts, in order. */
  predicate MainWords(ws: seq<string>)
  {
    |ws| == 4 && ws[0] == "axy" && ws[1] == "abxy" && ws[2] == "bca" && ws[3] == "bxta"
  }

  /** Inserting the four words of `main()` in order builds `T1`, `T2`, `T3`
      and then `T4`. */
  lemma InsertAll(ws: seq<string>)
    requires MainWords(ws)
    ensures InsertedAll(Empty, ws) == T4
  {
    InsertedFour(ws);
    assert ws[..4] == ws;
  }

  lemma InsertedFour(ws: seq<string>)
    requires MainWords(ws)
    ensures InsertedAll(Empty, ws[..4]) == T4
  {
    InsertedThree(ws);
    InsertStep(ws, 3, T3, T4) by { InsertBxtaAt(T3, ws[3]); }
  }

  lemma InsertedThree(ws: seq<string>)
    requires MainWords(ws)
    ensures InsertedAll(Empty, ws[..3]) == T3
  {
    InsertedTwo(ws);
    InsertStep(ws, 2, T2, T3) by { InsertBcaAt(T2, ws[2]); }
  }

  lemma InsertedTwo(ws: seq<string>)
    requires MainWords(ws)
    ensures InsertedAll(Empty, ws[..2]) == T2
  {
    assert ws[..0] == [];
    InsertStep(ws, 0, Empty, T1) by { InsertAxyAt(Empty, ws[0]); }
    InsertStep(ws, 1, T1, T2) by { InsertAbxyAt(T1, ws[1]); }
  }

  // The `...At` lemmas below restate a literal step lemma with its tree and
  // word as parameters. A caller that passes `ws[i]` then never sees the
  // literal string, which the verifier would otherwise unfold eagerly in the
  // caller's context; the literal work stays inside the small step lemma.

  lemma InsertAxyAt(n: Node, w: string)
    requires n == Empty && w == "axy"
    ensures Inserted(n, w) == T1
  {
    InsertAxy();
  }

  lemma InsertAbxyAt(n: Node, w: string)
    requires n == T1 && w == "abxy"
    ensures Inserted(n, w) == T2
  {
    InsertAbxy();
  }

  lemma InsertBcaAt(n: Node, w: string)
    requires n == T2 && w == "bca"
    ensures Inserted(n, w) == T3
  {
    InsertBca();
  }

  lemma InsertBxtaAt(n: Node, w: string)
    requires n == T3 && w == "bxta"
    ensures Inserted(n, w) == T4
  {
    InsertBxta();
  }

  /** One step of the insert loop of `main()`. */
  lemma InsertStep(ws: seq<string>, i: nat, before: Node, after: Node)
    requires i < |ws|
    requires InsertedAll(Empty, ws[..i]) == before && Inserted(before, ws[i]) == after
    ensures InsertedAll(Empty, ws[..i + 1]) == after
  {
    assert ws[..i + 1][..i] == ws[..i];
  }

  /** The trie that inserting `ws` in order into `n` produces. */
  function InsertedAll(n: Node, ws: seq<string>): Node
  {
    if ws == [] then n else Inserted(InsertedAll(n, ws[..|ws| - 1]), ws[|ws| - 1])
  }

  /** The loop of `main()` that inserts each word of `words` into a new
      trie. */
  method BuildTrie(words: seq<string>) returns (t: Trie)
    ensures fresh(t) && t.Valid()
    ensures t.root == InsertedAll(Empty, words) && t.count == |words|
  {
    t := new Trie();
    for i := 0 to |words|
      invariant t.Valid()
      invariant t.root == InsertedAll(Empty, words[..i]) && t.count == i
    {
      assert words[..i + 1][..i] == words[..i];
      t.Insert(words[i]);
    }
    assert words[..|words|] == words;
  }

  /** The first part of `main()`: a new trie into which "axy", "abxy", "bca"
      and "bxta" are inserted in this order. */
  method BuildMain() returns (t: Trie)
    ensures fresh(t) && t.Valid()
    ensures t.root == T4 && t.count == 4
  {
    var words := ["axy", "abxy", "bca", "bxta"];
    t := BuildTrie(words);
    InsertAll(words);
  }

  /** `main()`: inserts "axy", "abxy", "bca", "bxta"; lists all words; lists
      the words starting with "b"; searches "abxy"; deletes "axy"; lists all
      words again. The deletion unlinks only the branch "xy" under "a". */
  method MainScenario() returns (all: seq<string>, withB: seq<string>, found: bool,
                                 deleted: bool, after: seq<string>, stillThere: bool)
    ensures all == ["axy", "abxy", "bca", "bxta"]
    ensures withB == ["bca", "bxta"]
    ensures found && deleted && !stillThere
    ensures after == ["abxy", "bca", "bxta"]
  {
    var t := BuildMain();
    all := t.GetAllWords();
    EnumerateT4();
    withB := t.GetAllPrefixes("b");
    assert Find(T4, "b") == Some(UnderB) by {
      assert "b"[0] == 'b' && "b"[1..] == "";
    }
    EnumerateB();
    found := t.Search("abxy");
    assert "abxy" in all;
    deleted := t.Delete("axy");
    assert "axy" in all;
    DeleteAxy();
    after := t.GetAllWords();
    EnumerateT5();
    stillThere := t.Search("axy");
  }

  const AB := Node([('a', Node([('b', Leaf)], false))], false)
  const ABC := Node([('a', Node([('b', Node([('c', Leaf)], true))], false))], false)

  lemma InsertA(n: Node, w: string)
    requires (n == Empty || n == A) && w == "a"
    ensures Inserted(n, w) == A
  {
    assert w[0] == 'a' && w[1..] == "";
  }

  // `InsertAb`, `InsertAbc` and `DeleteAbcFixed` are parametric forms of
  // the literal lemmas after them, for the same reason as the `...At` lemmas.

  lemma InsertAb(n: Node, w: string)
    requires n == Empty && w == "ab"
    ensures Inserted(n, w) == AB
  {
    InsertFreshAb();
  }

  lemma InsertFreshAb()
    ensures Inserted(Empty, "ab") == AB
  {
    assert "ab"[0] == 'a' && "ab"[1..] == "b";
    assert "b"[0] == 'b' && "b"[1..] == "";
    assert Inserted(Empty, "b") == Node([('b', Leaf)], false);
  }

  lemma InsertAbc(n: Node, w: string)
    requires n == AB && w == "abc"
    ensures Inserted(n, w) == ABC
  {
    ExtendAb();
  }

  lemma ExtendAb()
    ensures Inserted(AB, "abc") == ABC
  {
    assert "abc"[0] == 'a' && "abc"[1..] == "bc";
    assert "bc"[0] == 'b' && "bc"[1..] == "c";
    assert "c"[0] == 'c' && "c"[1..] == "";
    assert Inserted(Empty, "c") == Node([('c', Leaf)], false);
    assert ChildOrEmpty(Leaf, 'c') == Empty;
    assert Inserted(Leaf, "c") == Node([('c', Leaf)], true);
    assert ChildOrEmpty(Node([('b', Leaf)], false), 'b') == Leaf;
    assert Inserted(Node([('b', Leaf)], false), "bc") == Node([('b', Node([('c', Leaf)], true))], false);
    assert ChildOrEmpty(AB, 'a') == Node([('b', Leaf)], false);
  }

  lemma DeleteAbc(n: Node, w: string)
    requires n == ABC && w == "abc"
    ensures HasPath(n, w) && DeleteFrom(n, w) == (Empty, true)
  {
    assert w[0] == 'a' && w[1..] == "bc";
    assert "bc"[0] == 'b' && "bc"[1..] == "c";
    assert "c"[0] == 'c' && "c"[1..] == "";
  }

  /** A new trie into which "a" is inserted twice: stored once, counted
      twice. */
  method BuildDuplicate() returns (t: Trie)
    ensures fresh(t) && t.Valid()
    ensures t.root == A && t.count == 2
  {
    t := new Trie();
    InsertA(t.root, "a");
    t.Insert("a");
    InsertA(t.root, "a");
    t.Insert("a");
  }

  /** Inserting "a" twice stores it once but counts it twice; deleting it
      once then removes it although the counter still reports one word. */
  method DuplicateScenario() returns (all: seq<string>, countAfterInserts: int,
                                      deleted: bool, found: bool, countAfterDelete: int)
    ensures all == ["a"] && countAfterInserts == 2
    ensures deleted && !found && countAfterDelete == 1
  {
    var t := BuildDuplicate();
    all := t.GetAllWords();
    assert [] + ['a'] == "a";
    EnumerateOne('a', Leaf, []);
    EnumerateLeaf("a");
    countAfterInserts := t.count;
    deleted := t.Delete("a");
    found := t.Search("a");
    countAfterDelete := t.count;
  }

  /** A new trie into which "ab" and then "abc" are inserted. */
  method BuildPrefixes() returns (t: Trie)
    ensures fresh(t) && t.Valid()
    ensures t.root == ABC && t.count == 2
  {
    t := new Trie();
    InsertAb(t.root, "ab");
    t.Insert("ab");
    InsertAbc(t.root, "abc");
    t.Insert("abc");
  }

  /** Inserting "ab" and "abc" and then deleting "abc" also loses "ab": on
      the way back `_delete` unlinks the node of "ab" although it ends a
      word, and with it every edge up to the root. The counter still reports
      one word. */
  method PrefixScenario() returns (deleted: bool, found: bool, all: seq<string>, count: int)
    ensures deleted && !found && all == [] && count == 1
  {
    var t := BuildPrefixes();
    StoresAbAndAbc();
    DeleteAbc(t.root, "abc");
    deleted := t.Delete("abc");
    found := t.Search("ab");
    all := t.GetAllWords();
    assert Enumerate(Empty, []) == [];
    count := t.count;
  }

  lemma StoresAbAndAbc()
    ensures Contains(ABC, "ab") && Contains(ABC, "abc")
  {
  }

  lemma DeleteAbcFixed(n: Node, w: string)
    requires n == ABC && w == "abc"
    ensures HasPath(n, w) && DeleteFromFixed(n, w) == (AB, false)
  {
    FixedDeleteAbc();
  }

  lemma FixedDeleteAbc()
    ensures HasPath(ABC, "abc") && DeleteFromFixed(ABC, "abc") == (AB, false)
  {
    assert "abc"[0] == 'a' && "abc"[1..] == "bc";
    FixedDeleteBc();
    assert Lookup(ABC.children, 'a') == Some(Node([('b', Node([('c', Leaf)], true))], false));
    assert Put(ABC.children, 'a', Node([('b', Leaf)], false)) == AB.children;
  }

  lemma FixedDeleteBc()
    ensures var m := Node([('b', Node([('c', Leaf)], true))], false);
      HasPath(m, "bc") && DeleteFromFixed(m, "bc") == (Node([('b', Leaf)], false), false)
  {
    assert "bc"[0] == 'b' && "bc"[1..] == "c";
    FixedDeleteC();
    assert Put([('b', Node([('c', Leaf)], true))], 'b', Leaf) == [('b', Leaf)];
  }

  lemma FixedDeleteC()
    ensures HasPath(Node([('c', Leaf)], true), "c") && DeleteFromFixed(Node([('c', Leaf)], true), "c") == (Leaf, false)
  {
    assert "c"[0] == 'c' && "c"[1..] == "";
    assert DeleteFromFixed(Leaf, "") == (Node([], false), true);
    assert Remove([('c', Leaf)], 'c') == [];
  }

  lemma EnumerateAb()
    ensures Enumerate(AB, []) == ["ab"]
  {
    assert [] + ['a'] == "a" && "a" + ['b'] == "ab";
    EnumerateOne('a', Node([('b', Leaf)], false), []);
    EnumerateOne('b', Leaf, "a");
    EnumerateLeaf("ab");
  }

  /** The same run with the corrected `_delete`: deleting "abc" keeps "ab",
      and the counter again matches the stored words. */
  method FixedPrefixScenario() returns (deleted: bool, found: bool, all: seq<string>, count: int)
    ensures deleted && found && all == ["ab"] && count == 1
  {
    var t := BuildPrefixes();
    StoresAbAndAbc();
    DeleteAbcFixed(t.root, "abc");
    deleted := t.DeleteFixed("abc");
    found := t.Search("ab");
    all := t.GetAllWords();
    EnumerateAb();
    count := t.count;
  }
}
