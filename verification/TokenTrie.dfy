/** Finite languages of token sequences, and tries whose states stand for the prefixes of a language. */
module TokenTrie {
  import opened Core
  import opened Counting

  type Word = seq<uint32>

  datatype Choice<K> = Choice(id: K, tokens: Word)

  /** One trie node: the children by token, and the choice that ends here, if any. */
  datatype Node = Node(children: map<uint32, nat>, terminal: uint32)

  const NO_TERMINAL: uint32 := 0xFFFF_FFFF

  const EMPTY_NODE := Node(map[], NO_TERMINAL)

  // ---------- Words and prefixes ----------

  /** All prefixes of a word, itself and the empty word included. */
  ghost function PrefixesOf(w: Word): set<Word> {
    set k | 0 <= k <= |w| :: w[..k]
  }

  ghost function Prefixes<K>(language: seq<Choice<K>>): set<Word> {
    if language == [] then {[]}
    else Prefixes(language[..|language| - 1]) + PrefixesOf(language[|language| - 1].tokens)
  }

  lemma {:induction false} PrefixMembership<K(!new)>(language: seq<Choice<K>>, w: Word)
    ensures w in Prefixes(language) <==> w == [] || exists k :: 0 <= k < |language| && w <= language[k].tokens
  {
    if language == [] {
    } else {
      var init, last := language[..|language| - 1], language[|language| - 1].tokens;
      PrefixMembership(init, w);
      assert w in PrefixesOf(last) <==> w <= last by {
        if w <= last { assert last[..|w|] == w; }
      }
      if k :| 0 <= k < |init| && w <= init[k].tokens { assert language[k] == init[k]; }
      if k :| 0 <= k < |language| && w <= language[k].tokens {
        if k < |init| { assert init[k] == language[k]; }
      }
    }
  }

  lemma {:induction false} PrefixesGrow<K(!new)>(language: seq<Choice<K>>, n: nat)
    requires n <= |language|
    ensures Prefixes(language[..n]) <= Prefixes(language)
    decreases |language| - n
  {
    if n < |language| {
      assert language[..n + 1][..n] == language[..n];
      PrefixesGrow(language, n + 1);
    } else {
      assert language[..n] == language;
    }
  }

  /** No word of the language is a prefix of another, or equal to it. */
  ghost predicate PrefixFree<K>(language: seq<Choice<K>>) {
    forall i, j :: 0 <= i < |language| && 0 <= j < |language| && i != j ==>
      !(language[i].tokens <= language[j].tokens)
  }

  // ---------- Distinct sequences ----------

  ghost function Elements<T>(s: seq<T>): set<T> {
    set x | x in s
  }

  lemma {:induction false} DistinctCard<T(!new)>(s: seq<T>)
    requires Distinct(s)
    ensures |Elements(s)| == |s|
  {
    if s == [] {
    } else {
      var init, last := s[..|s| - 1], s[|s| - 1];
      DistinctCard(init);
      assert s == init + [last];
      assert Elements(s) == Elements(init) + {last};
    }
  }

  lemma {:induction false} CardMonotone<T>(a: set<T>, b: set<T>)
    requires a <= b
    ensures |a| <= |b|
  {
    if a != {} {
      var x :| x in a;
      CardMonotone(a - {x}, b - {x});
    }
  }

  // ---------- Tries ----------

  /** State `c` hangs below an earlier state, by the last token of its path. */
  ghost predicate HasParent(trie: seq<Node>, paths: seq<Word>, c: nat)
    requires |trie| == |paths| && c < |paths|
  {
    paths[c] != [] &&
    exists i :: 0 <= i < c && paths[c] == paths[i] + [paths[c][|paths[c]| - 1]]
      && paths[c][|paths[c]| - 1] in trie[i].children
      && trie[i].children[paths[c][|paths[c]| - 1]] == c
  }

  /** The arcs leaving `i` lead to later states, one token further. */
  ghost predicate ArcsForward(trie: seq<Node>, paths: seq<Word>, i: nat)
    requires |trie| == |paths| && i < |paths|
  {
    forall t :: t in trie[i].children ==>
      i < trie[i].children[t] < |paths| && paths[trie[i].children[t]] == paths[i] + [t]
  }

  /** A trie is a tree of distinct words: `paths[i]` is the word that leads to state `i`. */
  ghost predicate IsTrie(trie: seq<Node>, paths: seq<Word>) {
    && |trie| == |paths| > 0
    && paths[0] == []
    && Distinct(paths)
    && (forall i :: 0 <= i < |paths| ==> ArcsForward(trie, paths, i))
    && (forall c :: 0 < c < |paths| ==> HasParent(trie, paths, c))
  }

  /** The number of arcs. */
  function ArcTotal(trie: seq<Node>): nat {
    if trie == [] then 0 else ArcTotal(trie[..|trie| - 1]) + |trie[|trie| - 1].children|
  }

  /** A child exists exactly for the words that are one token longer. */
  lemma ChildExact(trie: seq<Node>, paths: seq<Word>, i: nat, t: uint32)
    requires IsTrie(trie, paths) && i < |paths|
    ensures t in trie[i].children <==> paths[i] + [t] in Elements(paths)
  {
    if t in trie[i].children {
      assert ArcsForward(trie, paths, i);
      assert paths[trie[i].children[t]] in paths;
    }
    if paths[i] + [t] in paths {
      var c :| 0 <= c < |paths| && paths[c] == paths[i] + [t];
      assert c != 0;
      assert HasParent(trie, paths, c);
      var j :| 0 <= j < c && paths[c] == paths[j] + [paths[c][|paths[c]| - 1]]
        && paths[c][|paths[c]| - 1] in trie[j].children && trie[j].children[paths[c][|paths[c]| - 1]] == c;
      assert paths[j] == paths[c][..|paths[c]| - 1] == paths[i];
      assert i == j;
    }
  }

  lemma {:induction false} ArcTotalUpdate(trie: seq<Node>, i: nat, node: Node)
    requires i < |trie|
    ensures ArcTotal(trie[i := node]) == ArcTotal(trie) - |trie[i].children| + |node.children|
  {
    var n := |trie| - 1;
    if i < n {
      assert trie[i := node][..n] == trie[..n][i := node];
      ArcTotalUpdate(trie[..n], i, node);
    } else {
      assert trie[i := node][..n] == trie[..n];
    }
  }

  /** Append a fresh child of `state` under `token`. */
  function AddChild(trie: seq<Node>, state: nat, token: uint32): seq<Node>
    requires state < |trie|
  {
    trie[state := trie[state].(children := trie[state].children[token := |trie|])] + [EMPTY_NODE]
  }

  lemma AddChildTrie(trie: seq<Node>, paths: seq<Word>, state: nat, token: uint32)
    requires IsTrie(trie, paths) && state < |trie| && token !in trie[state].children
    ensures IsTrie(AddChild(trie, state, token), paths + [paths[state] + [token]])
    ensures ArcTotal(AddChild(trie, state, token)) == ArcTotal(trie) + 1
  {
    hide Distinct, ArcsForward, HasParent, AddChild, ArcTotal;
    ChildExact(trie, paths, state, token);
    DistinctSnoc(paths, paths[state] + [token]);
    AddChildArcs(trie, paths, state, token);
    AddChildParents(trie, paths, state, token);
    AddChildTotal(trie, state, token);
  }

  lemma DistinctSnoc<T(!new)>(s: seq<T>, x: T)
    requires Distinct(s) && x !in Elements(s)
    ensures Distinct(s + [x])
  {
    assert forall i :: 0 <= i < |s| ==> s[i] in Elements(s);
  }

  lemma AddChildArcs(trie: seq<Node>, paths: seq<Word>, state: nat, token: uint32)
    requires |trie| == |paths| && state < |trie| && token !in trie[state].children
    requires forall i :: 0 <= i < |paths| ==> ArcsForward(trie, paths, i)
    ensures var trie', paths' := AddChild(trie, state, token), paths + [paths[state] + [token]];
      |trie'| == |paths'| && forall i :: 0 <= i < |paths'| ==> ArcsForward(trie', paths', i)
  {
    var trie', paths' := AddChild(trie, state, token), paths + [paths[state] + [token]];
    forall i | 0 <= i < |paths'| ensures ArcsForward(trie', paths', i) {
      if i < |paths| { assert ArcsForward(trie, paths, i); }
    }
  }

  lemma AddChildTotal(trie: seq<Node>, state: nat, token: uint32)
    requires state < |trie| && token !in trie[state].children
    ensures ArcTotal(AddChild(trie, state, token)) == ArcTotal(trie) + 1
  {
    var trie' := AddChild(trie, state, token);
    ArcTotalUpdate(trie, state, trie'[state]);
    assert trie'[..|trie|] == trie[state := trie'[state]];
    assert |trie'[state].children| == |trie[state].children| + 1;
  }

  lemma AddChildParents(trie: seq<Node>, paths: seq<Word>, state: nat, token: uint32)
    requires IsTrie(trie, paths) && state < |trie| && token !in trie[state].children
    ensures var trie', paths' := AddChild(trie, state, token), paths + [paths[state] + [token]];
      forall c :: 0 < c < |paths'| ==> HasParent(trie', paths', c)
  {
    var trie', paths' := AddChild(trie, state, token), paths + [paths[state] + [token]];
    forall c | 0 < c < |paths'| ensures HasParent(trie', paths', c) {
      if c < |paths| {
        assert HasParent(trie, paths, c);
        var last := paths[c][|paths[c]| - 1];
        var i :| 0 <= i < c && paths[c] == paths[i] + [last] && last in trie[i].children && trie[i].children[last] == c;
        assert paths'[c] == paths'[i] + [last] && last in trie'[i].children && trie'[i].children[last] == c;
      } else {
        assert paths'[c] == paths'[state] + [token];
        assert paths'[c][|paths'[c]| - 1] == token;
      }
    }
  }
}
