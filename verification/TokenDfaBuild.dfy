/** Compiling a finite language to the flat tables, and reading them by binary search. */
module TokenDfaBuild {
  import opened Core
  import opened Counting
  import opened TokenTrie
  import opened TokenDfa

  datatype Config = Config(
    vocabularySize: uint32, maxTokens: uint32, maxChoices: uint32, maxStates: uint32, maxArcs: uint32)

  ghost predicate Usable(c: Config) {
    c.vocabularySize != 0 && c.maxTokens != 0 && c.maxChoices != 0 && c.maxStates != 0 && c.maxArcs != 0
  }

  // ---------- Which languages are accepted ----------

  ghost predicate WordAllowed(w: Word, c: Config) {
    w != [] && |w| <= c.maxTokens && forall i :: 0 <= i < |w| ==> w[i] < c.vocabularySize
  }

  ghost predicate IdsUnique<K>(language: seq<Choice<K>>) {
    forall i, j :: 0 <= i < j < |language| ==> language[i].id != language[j].id
  }

  ghost predicate WellFormed<K>(language: seq<Choice<K>>, c: Config, reserved: K -> bool) {
    && language != []
    && Usable(c)
    && (forall k :: 0 <= k < |language| ==> !reserved(language[k].id))
    && IdsUnique(language)
    && (forall k :: 0 <= k < |language| ==> WordAllowed(language[k].tokens, c))
    && PrefixFree(language)
  }

  ghost predicate WithinLimits<K>(language: seq<Choice<K>>, c: Config) {
    && |language| <= c.maxChoices
    && |Prefixes(language)| <= c.maxStates
    && |Prefixes(language)| - 1 <= c.maxArcs
  }

  // ---------- Growing the trie by one word ----------

  /** The terminal marks of the first `|before|` nodes are kept, and new nodes carry none. */
  ghost predicate KeepsMarks(before: seq<Node>, after: seq<Node>) {
    && |before| <= |after|
    && (forall i :: 0 <= i < |before| ==> after[i].terminal == before[i].terminal)
    && (forall i :: |before| <= i < |after| ==> after[i].terminal == NO_TERMINAL)
  }

  /** No state on the way to the end of `w` carries a mark. */
  ghost predicate PathUnmarked(trie: seq<Node>, paths: seq<Word>, w: Word)
    requires |trie| == |paths|
  {
    forall i :: 0 <= i < |trie| && paths[i] < w ==> trie[i].terminal == NO_TERMINAL
  }

  /** `n` tokens of `w` have been followed or added, and `state` is where they lead. */
  ghost predicate Descended(before: seq<Node>, known: set<Word>, w: Word, n: nat, after: seq<Node>, paths: seq<Word>,
                            state: nat)
    requires n <= |w|
  {
    && IsTrie(after, paths)
    && Elements(paths) == known + PrefixesOf(w[..n])
    && state < |after| && paths[state] == w[..n]
    && KeepsMarks(before, after)
    && ArcTotal(after) == |after| - 1
  }

  lemma FollowChild(before: seq<Node>, known: set<Word>, w: Word, n: nat, trie: seq<Node>, paths: seq<Word>, state: nat)
    requires n < |w| && Descended(before, known, w, n, trie, paths, state) && w[n] in trie[state].children
    ensures Descended(before, known, w, n + 1, trie, paths, trie[state].children[w[n]])
  {
    assert ArcsForward(trie, paths, state);
    ExtendPrefixes(w, n);
    ChildExact(trie, paths, state, w[n]);
  }

  lemma ExtendPrefixes(w: Word, n: nat)
    requires n < |w|
    ensures w[..n + 1] == w[..n] + [w[n]]
    ensures PrefixesOf(w[..n + 1]) == PrefixesOf(w[..n]) + {w[..n + 1]}
  {
    var u, v := w[..n], w[..n + 1];
    forall p ensures p in PrefixesOf(v) <==> p in PrefixesOf(u) || p == v {
      if p in PrefixesOf(v) {
        var k :| 0 <= k <= |v| && p == v[..k];
        assert k <= n ==> p == u[..k];
      }
      if p in PrefixesOf(u) {
        var k :| 0 <= k <= |u| && p == u[..k];
        assert p == v[..k];
      }
      assert v == v[..|v|];
    }
  }

  lemma GrowChild(before: seq<Node>, known: set<Word>, w: Word, n: nat, trie: seq<Node>, paths: seq<Word>, state: nat)
    requires n < |w| && Descended(before, known, w, n, trie, paths, state) && w[n] !in trie[state].children
    ensures Descended(before, known, w, n + 1, AddChild(trie, state, w[n]), paths + [w[..n + 1]], |trie|)
    ensures |known + PrefixesOf(w)| > |trie|
  {
    ExtendPrefixes(w, n);
    AddChildTrie(trie, paths, state, w[n]);
    assert Elements(paths + [w[..n + 1]]) == Elements(paths) + {w[..n + 1]};
    MissingPrefix(known, w, n, trie, paths, state);
  }

  lemma MissingPrefix(known: set<Word>, w: Word, n: nat, trie: seq<Node>, paths: seq<Word>, state: nat)
    requires n < |w| && IsTrie(trie, paths) && Elements(paths) == known + PrefixesOf(w[..n])
    requires state < |trie| && paths[state] == w[..n] && w[n] !in trie[state].children
    ensures |known + PrefixesOf(w)| > |trie|
  {
    ExtendPrefixes(w, n);
    ChildExact(trie, paths, state, w[n]);
    DistinctCard(paths);
    forall p | p in PrefixesOf(w[..n]) + {w[..n + 1]} ensures p in PrefixesOf(w) {
      var k :| 0 <= k <= n + 1 && p == w[..n + 1][..k];
      assert p == w[..k];
    }
    CardMonotone(Elements(paths) + {w[..n + 1]}, known + PrefixesOf(w));
  }

  /** A state whose word is a shorter prefix of the first `n` tokens, or their end. */
  lemma UnmarkedStep(trie: seq<Node>, paths: seq<Word>, w: Word, n: nat, state: nat)
    requires IsTrie(trie, paths) && n < |w| && state < |trie| && paths[state] == w[..n]
    requires PathUnmarked(trie, paths, w[..n]) && trie[state].terminal == NO_TERMINAL
    ensures PathUnmarked(trie, paths, w[..n + 1])
  {
    forall i | 0 <= i < |trie| && paths[i] < w[..n + 1] ensures trie[i].terminal == NO_TERMINAL {
      assert paths[i] == w[..|paths[i]|];
      if |paths[i]| < n { assert paths[i] < w[..n]; }
    }
  }

  /** The whole state of the descent after `n` tokens, within the limits. */
  ghost predicate Descending(before: seq<Node>, beforePaths: seq<Word>, w: Word, n: nat, c: Config, trie: seq<Node>,
                             paths: seq<Word>, state: nat, arcCount: nat)
    requires n <= |w|
  {
    && Descended(before, Elements(beforePaths), w, n, trie, paths, state)
    && beforePaths <= paths
    && PathUnmarked(trie, paths, w[..n])
    && arcCount == |trie| - 1 && |trie| <= c.maxStates && arcCount <= c.maxArcs
    && (forall i :: 0 <= i < n ==> w[i] < c.vocabularySize)
  }

  /** A token is outside the vocabulary, or an earlier word is a prefix of `w`. */
  ghost predicate Rejected(trie: seq<Node>, paths: seq<Word>, w: Word, c: Config)
    requires |trie| == |paths|
  {
    || (exists i :: 0 <= i < |w| && w[i] >= c.vocabularySize)
    || (exists i :: 0 <= i < |trie| && paths[i] <= w && trie[i].terminal != NO_TERMINAL)
  }

  ghost predicate Exceeds(prefixes: set<Word>, c: Config) {
    |prefixes| > c.maxStates || |prefixes| - 1 > c.maxArcs
  }

  /** Follow or add the arc for token `n`. */
  method DescendOne(ghost before: seq<Node>, ghost beforePaths: seq<Word>, w: Word, n: nat, c: Config, trie: seq<Node>,
                    ghost paths: seq<Word>, state: nat, arcCount: nat)
    returns (status: Status, trie': seq<Node>, state': nat, arcCount': nat, ghost paths': seq<Word>)
    requires |before| == |beforePaths| && n < |w|
    requires Descending(before, beforePaths, w, n, c, trie, paths, state, arcCount)
    ensures status.Success? ==> Descending(before, beforePaths, w, n + 1, c, trie', paths', state', arcCount')
    ensures status == Failure(InvalidArgument) ==> Rejected(before, beforePaths, w, c)
    ensures status == Failure(ResourceLimit) ==> Exceeds(Elements(beforePaths) + PrefixesOf(w), c)
    ensures status.Failure? ==> status.error == InvalidArgument || status.error == ResourceLimit
  {
    hide Elements, PrefixesOf, HasParent, ArcsForward, Distinct, KeepsMarks, ArcTotal;
    status, trie', paths', state', arcCount' := OK, trie, paths, state, arcCount;
    if w[n] >= c.vocabularySize || trie[state].terminal != NO_TERMINAL {
      MarkedBefore(before, beforePaths, w, n, trie, paths, state);
      status := Failure(InvalidArgument);
    } else if w[n] !in trie[state].children {
      GrowChild(before, Elements(beforePaths), w, n, trie, paths, state);
      if |trie| >= c.maxStates || arcCount >= c.maxArcs {
        status := Failure(ResourceLimit);
      } else {
        UnmarkedStep(trie, paths, w, n, state);
        trie', paths', state' := AddChild(trie, state, w[n]), paths + [w[..n + 1]], |trie|;
        arcCount' := arcCount + 1;
      }
    } else {
      UnmarkedStep(trie, paths, w, n, state);
      FollowChild(before, Elements(beforePaths), w, n, trie, paths, state);
      state' := trie[state].children[w[n]];
    }
  }

  /** Follow `w` from the root, adding the states that are missing. */
  method Descend(trie: seq<Node>, ghost paths: seq<Word>, w: Word, arcCount: nat, c: Config)
    returns (status: Status, trie': seq<Node>, state: nat, arcCount': nat, ghost paths': seq<Word>)
    requires IsTrie(trie, paths) && arcCount == ArcTotal(trie) == |trie| - 1
    requires |trie| <= c.maxStates && arcCount <= c.maxArcs
    ensures status.Success? ==> Descending(trie, paths, w, |w|, c, trie', paths', state, arcCount')
    ensures status == Failure(InvalidArgument) ==> Rejected(trie, paths, w, c)
    ensures status == Failure(ResourceLimit) ==> Exceeds(Elements(paths) + PrefixesOf(w), c)
    ensures status.Failure? ==> status.error == InvalidArgument || status.error == ResourceLimit
  {
    status, trie', paths', state, arcCount' := OK, trie, paths, 0, arcCount;
    RootKnown(trie, paths, w);
    for n := 0 to |w|
      invariant status.Success?
      invariant Descending(trie, paths, w, n, c, trie', paths', state, arcCount')
    {
      status, trie', state, arcCount', paths' := DescendOne(trie, paths, w, n, c, trie', paths', state, arcCount');
      if status.Failure? { return; }
    }
  }

  lemma RootKnown(trie: seq<Node>, paths: seq<Word>, w: Word)
    requires IsTrie(trie, paths) && ArcTotal(trie) == |trie| - 1
    ensures Descended(trie, Elements(paths), w, 0, trie, paths, 0)
    ensures PathUnmarked(trie, paths, w[..0])
  {
    var e: Word := w[..0];
    assert e == [] == e[..0];
    assert PrefixesOf(e) == {[]};
    assert paths[0] in Elements(paths);
  }

  /** A mark met on the way down was there before the descent. */
  lemma MarkedBefore(trie: seq<Node>, paths: seq<Word>, w: Word, n: nat, trie': seq<Node>, paths': seq<Word>,
                     state: nat)
    requires |trie| == |paths| && n < |w| && Descended(trie, Elements(paths), w, n, trie', paths', state)
    requires paths <= paths'
    ensures trie'[state].terminal != NO_TERMINAL ==>
      exists i :: 0 <= i < |trie| && paths[i] <= w && trie[i].terminal != NO_TERMINAL
  {
    if trie'[state].terminal != NO_TERMINAL {
      assert state < |trie|;
      assert paths[state] == paths'[state];
      assert w[..n] <= w;
    }
  }

  // ---------- Marking the end of a word ----------

  /** The node where a word ends, marked with the index of its choice. */
  function Mark(trie: seq<Node>, state: nat, index: uint32): seq<Node>
    requires state < |trie|
  {
    trie[state := trie[state].(terminal := index)]
  }

  lemma MarkKeepsTrie(trie: seq<Node>, paths: seq<Word>, state: nat, index: uint32)
    requires IsTrie(trie, paths) && state < |trie|
    ensures IsTrie(Mark(trie, state, index), paths)
    ensures ArcTotal(Mark(trie, state, index)) == ArcTotal(trie)
  {
    var marked := Mark(trie, state, index);
    assert forall i :: 0 <= i < |trie| ==> marked[i].children == trie[i].children;
    forall i | 0 <= i < |paths| ensures ArcsForward(marked, paths, i) {
      assert ArcsForward(trie, paths, i);
    }
    forall c | 0 < c < |paths| ensures HasParent(marked, paths, c) {
      assert HasParent(trie, paths, c);
    }
    ArcTotalUpdate(trie, state, marked[state]);
  }

  lemma PrefixesSnoc<K(!new)>(language: seq<Choice<K>>, choice: Choice<K>)
    ensures Prefixes(language + [choice]) == Prefixes(language) + PrefixesOf(choice.tokens)
  {
    assert (language + [choice])[..|language|] == language;
  }

  lemma MarksWordsSnoc<K(!new)>(trie: seq<Node>, paths: seq<Word>, language: seq<Choice<K>>,
                                                   choice: Choice<K>,
                                                   trie': seq<Node>, paths': seq<Word>, state: nat)
    requires |trie| == |paths| && |trie'| == |paths'| && state < |trie'| && |language| < NO_TERMINAL
    requires MarksWords(trie, paths, language) && KeepsMarks(trie, trie') && paths <= paths'
    requires paths'[state] == choice.tokens && trie'[state].terminal == NO_TERMINAL
    ensures MarksWords(Mark(trie', state, |language|), paths', language + [choice])
  {
    var marked, longer := Mark(trie', state, |language|), language + [choice];
    forall i | 0 <= i < |marked| && marked[i].terminal != NO_TERMINAL
      ensures marked[i].terminal < |longer| && longer[marked[i].terminal].tokens == paths'[i]
    {
      if i != state { assert paths'[i] == paths[i]; }
    }
    forall k | 0 <= k < |longer| ensures MarkedBy(marked, paths', longer[k].tokens, k) {
      if k < |language| {
        assert MarkedBy(trie, paths, language[k].tokens, k);
        var i :| 0 <= i < |trie| && paths[i] == language[k].tokens && trie[i].terminal == k;
        assert paths'[i] == paths[i] && marked[i].terminal == k;
      } else {
        assert marked[state].terminal == k;
      }
    }
  }

  /** An unmarked leaf at the end of an unmarked path: the word is no prefix of another, nor another of it. */
  lemma PrefixFreeSnoc<K(!new)>(trie: seq<Node>, paths: seq<Word>, language: seq<Choice<K>>,
                                                   choice: Choice<K>, state: nat)
    requires IsTrie(trie, paths) && MarksWords(trie, paths, language) && PrefixFree(language)
    requires Prefixes(language) <= Elements(paths)
    requires state < |trie| && paths[state] == choice.tokens
    requires PathUnmarked(trie, paths, choice.tokens)
    requires trie[state].terminal == NO_TERMINAL && trie[state].children == map[]
    ensures PrefixFree(language + [choice])
  {
    forall k | 0 <= k < |language|
      ensures !(language[k].tokens <= choice.tokens) && !(choice.tokens <= language[k].tokens)
    {
      NotBelow(trie, paths, language[k].tokens, k, choice.tokens, state);
      NotAbove(trie, paths, language, k, choice.tokens, state);
    }
  }

  lemma NotBelow(trie: seq<Node>, paths: seq<Word>, v: Word, k: nat, w: Word, state: nat)
    requires |trie| == |paths| && Distinct(paths) && MarkedBy(trie, paths, v, k) && k < NO_TERMINAL
    requires state < |trie| && paths[state] == w && trie[state].terminal == NO_TERMINAL
    requires PathUnmarked(trie, paths, w)
    ensures !(v <= w)
  {
    var i :| 0 <= i < |trie| && paths[i] == v && trie[i].terminal == k;
    assert v <= w ==> v == w || v < w;
    assert v == w ==> i == state;
  }

  lemma NotAbove<K(!new)>(trie: seq<Node>, paths: seq<Word>, language: seq<Choice<K>>, k: nat,
                                             w: Word, state: nat)
    requires IsTrie(trie, paths) && k < |language| && Prefixes(language) <= Elements(paths)
    requires state < |trie| && paths[state] == w && trie[state].children == map[]
    ensures w <= language[k].tokens ==> w == language[k].tokens
  {
    var v := language[k].tokens;
    if w <= v && w != v {
      var t := v[|w|];
      NextToken(w, v[|w|..], v);
      PrefixMembership(language, w + [t]);
      ChildExact(trie, paths, state, t);
    }
  }

  /** An end that is marked, or has children, shows two words of which one is a prefix of the other. */
  lemma ClashingEnd<K(!new)>(trie: seq<Node>, paths: seq<Word>, language: seq<Choice<K>>,
                                                choice: Choice<K>, state: nat)
    requires IsTrie(trie, paths) && Elements(paths) == Prefixes(language + [choice])
    requires forall i :: 0 <= i < |trie| && trie[i].terminal != NO_TERMINAL ==>
      trie[i].terminal < |language| && language[trie[i].terminal].tokens == paths[i]
    requires state < |trie| && paths[state] == choice.tokens
    requires trie[state].terminal != NO_TERMINAL || trie[state].children != map[]
    ensures !PrefixFree(language + [choice])
  {
    var longer := language + [choice];
    var n := |language|;
    if trie[state].terminal != NO_TERMINAL {
      var m := trie[state].terminal;
      assert longer[m] == language[m] && longer[n] == choice;
      assert longer[m].tokens <= longer[n].tokens;
    } else {
      var t: uint32 :| t in trie[state].children;
      ChildExact(trie, paths, state, t);
      PrefixMembership(longer, choice.tokens + [t]);
      var j :| 0 <= j < |longer| && choice.tokens + [t] <= longer[j].tokens;
      ProperPrefix(choice.tokens, t, longer[j].tokens);
      assert longer[n] == choice && j != n;
    }
  }

  /** A descent that was rejected shows a token outside the vocabulary or a clash of words. */
  lemma RejectedWord<K(!new)>(trie: seq<Node>, paths: seq<Word>, language: seq<Choice<K>>,
                                                 choice: Choice<K>, c: Config)
    requires |trie| == |paths| && MarksWords(trie, paths, language) && Rejected(trie, paths, choice.tokens, c)
    ensures !WordAllowed(choice.tokens, c) || !PrefixFree(language + [choice])
  {
    if i :| 0 <= i < |trie| && paths[i] <= choice.tokens && trie[i].terminal != NO_TERMINAL {
      var longer, m := language + [choice], trie[i].terminal;
      assert longer[m] == language[m] && longer[|language|] == choice;
    }
  }

  // ---------- The whole language ----------

  /** What holds after the first `k` choices. */
  ghost predicate Compiled<K>(language: seq<Choice<K>>, k: nat, c: Config, reserved: K -> bool, trie: seq<Node>,
                              paths: seq<Word>, choices: seq<K>, ids: set<K>, arcCount: nat)
    requires k <= |language|
  {
    && Spells(trie, paths, language[..k])
    && arcCount == ArcTotal(trie) == |trie| - 1
    && |trie| <= c.maxStates && arcCount <= c.maxArcs
    && |choices| == k
    && (forall j :: 0 <= j < k ==> choices[j] == language[j].id && !reserved(choices[j]))
    && ids == Elements(choices)
    && IdsUnique(language[..k])
    && (forall j :: 0 <= j < k ==> WordAllowed(language[j].tokens, c))
  }

  /** Marking the end of an unmarked, childless descent makes the trie spell one more word. */
  lemma SpellsSnoc<K(!new)>(trie: seq<Node>, paths: seq<Word>, language: seq<Choice<K>>,
                                               choice: Choice<K>, c: Config,
                                               trie': seq<Node>, paths': seq<Word>, state: nat, arcCount: nat)
    requires Spells(trie, paths, language) && |language| < NO_TERMINAL && choice.tokens != []
    requires Descending(trie, paths, choice.tokens, |choice.tokens|, c, trie', paths', state, arcCount)
    requires trie'[state].terminal == NO_TERMINAL && trie'[state].children == map[]
    ensures Spells(Mark(trie', state, |language|), paths', language + [choice])
  {
    var w := choice.tokens;
    assert w[..|w|] == w;
    PrefixesSnoc(language, choice);
    MarksCarried(trie, paths, language, trie', paths');
    PrefixFreeSnoc(trie', paths', language, choice, state);
    MarkKeepsTrie(trie', paths', state, |language|);
    MarksWordsSnoc(trie, paths, language, choice, trie', paths', state);
  }

  lemma MarksCarried<K(!new)>(trie: seq<Node>, paths: seq<Word>, language: seq<Choice<K>>,
                                                 trie': seq<Node>, paths': seq<Word>)
    requires |trie| == |paths| && |trie'| == |paths'|
    requires MarksWords(trie, paths, language) && KeepsMarks(trie, trie') && paths <= paths'
    ensures MarksWords(trie', paths', language)
  {
    forall i | 0 <= i < |trie'| && trie'[i].terminal != NO_TERMINAL
      ensures trie'[i].terminal < |language| && language[trie'[i].terminal].tokens == paths'[i]
    {
      assert i < |trie|;
      assert paths'[i] == paths[i];
    }
    forall k | 0 <= k < |language| ensures MarkedBy(trie', paths', language[k].tokens, k) {
      assert MarkedBy(trie, paths, language[k].tokens, k);
      var i :| 0 <= i < |trie| && paths[i] == language[k].tokens && trie[i].terminal == k;
      assert paths'[i] == paths[i];
    }
  }

  /** A clash within the first choices is a clash of the whole language, and so is an excess of states. */
  lemma InitialPart<K(!new)>(language: seq<Choice<K>>, n: nat, c: Config)
    requires n <= |language|
    ensures PrefixFree(language) ==> PrefixFree(language[..n])
    ensures Exceeds(Prefixes(language[..n]), c) ==> Exceeds(Prefixes(language), c)
  {
    PrefixesGrow(language, n);
    CardMonotone(Prefixes(language[..n]), Prefixes(language));
    var init := language[..n];
    if PrefixFree(language) {
      forall i, j | 0 <= i < n && 0 <= j < n && i != j ensures !(init[i].tokens <= init[j].tokens) {
        assert init[i] == language[i] && init[j] == language[j];
      }
    }
  }

  /** Add one choice to the trie. */
  method AddChoice<K(==,!new)>(language: seq<Choice<K>>, k: nat, c: Config, ghost reserved: K -> bool,
                               trie: seq<Node>, ghost paths: seq<Word>, ghost choices: seq<K>, ghost ids: set<K>,
                                 arcCount: nat)
    returns (status: Status, trie': seq<Node>, arcCount': nat, ghost paths': seq<Word>)
    requires k < |language| <= c.maxChoices
    requires Compiled(language, k, c, reserved, trie, paths, choices, ids, arcCount)
    requires language[k].tokens != [] && |language[k].tokens| <= c.maxTokens
    ensures status.Success? ==>
      && Spells(trie', paths', language[..k + 1])
      && arcCount' == ArcTotal(trie') == |trie'| - 1
      && |trie'| <= c.maxStates && arcCount' <= c.maxArcs
      && WordAllowed(language[k].tokens, c)
    ensures status == Failure(InvalidArgument) ==> !WordAllowed(language[k].tokens, c) || !PrefixFree(language)
    ensures status == Failure(ResourceLimit) ==> Exceeds(Prefixes(language), c)
    ensures status.Failure? ==> status.error == InvalidArgument || status.error == ResourceLimit
  {
    var choice := language[k];
    ghost var init := language[..k];
    assert language[..k + 1] == init + [choice];
    PrefixesSnoc(init, choice);
    InitialPart(language, k + 1, c);
    var state;
    status, trie', state, arcCount', paths' := Descend(trie, paths, choice.tokens, arcCount, c);
    if status.Failure? {
      if status.error == InvalidArgument { RejectedWord(trie, paths, init, choice, c); }
      return;
    }
    assert choice.tokens[..|choice.tokens|] == choice.tokens;
    if trie'[state].terminal != NO_TERMINAL || trie'[state].children != map[] {
      MarksCarried(trie, paths, init, trie', paths');
      ClashingEnd(trie', paths', init, choice, state);
      return Failure(InvalidArgument), trie', arcCount', paths';
    }
    SpellsSnoc(trie, paths, init, choice, c, trie', paths', state, arcCount');
    MarkKeepsTrie(trie', paths', state, k);
    trie' := Mark(trie', state, k);
  }

  // ---------- Laying out the tables ----------

  /** The arcs listed so far and the tokens that remain, all of them larger. */
  ghost predicate Listing(arcs: seq<Arc>, remaining: set<uint32>, node: Node) {
    && remaining <= node.children.Keys
    && |arcs| + |remaining| == |node.children.Keys|
    && StrictlySorted(arcs)
    && (forall a :: 0 <= a < |arcs| ==> arcs[a].token in node.children && node.children[arcs[a].token] == arcs[a].next)
    && (forall a, t :: 0 <= a < |arcs| && t in remaining ==> arcs[a].token < t)
    && (forall t :: t in node.children ==> t in remaining || Carries(arcs, t))
  }

  predicate IsLeast(s: set<uint32>, t: uint32) {
    t in s && forall u :: u in s ==> t <= u
  }

  /** The children of a node in token order. */
  method ListArcs(node: Node) returns (arcs: seq<Arc>)
    ensures ListsChildren(arcs, node)
  {
    arcs := [];
    var remaining := node.children.Keys;
    while remaining != {}
      invariant Listing(arcs, remaining, node)
      decreases |remaining|
    {
      ghost var least := Least(remaining);
      var t :| IsLeast(remaining, t);
      ListingStep(arcs, remaining, node, t);
      arcs := arcs + [Arc(t, node.children[t])];
      remaining := remaining - {t};
    }
    assert |node.children| == |node.children.Keys|;
  }

  lemma {:induction false} Least(s: set<uint32>) returns (t: uint32)
    requires s != {}
    ensures IsLeast(s, t)
  {
    var x :| x in s;
    t := x;
    if s - {x} != {} {
      var y := Least(s - {x});
      t := if x < y then x else y;
      forall u | u in s ensures t <= u {
        assert u != x ==> u in s - {x};
      }
    } else {
      forall u | u in s ensures t <= u {
        assert u != x ==> u in s - {x};
      }
    }
  }

  lemma ListingStep(arcs: seq<Arc>, remaining: set<uint32>, node: Node, t: uint32)
    requires Listing(arcs, remaining, node) && IsLeast(remaining, t)
    ensures Listing(arcs + [Arc(t, node.children[t])], remaining - {t}, node)
  {
    var longer := arcs + [Arc(t, node.children[t])];
    forall u | u in node.children ensures u in remaining - {t} || Carries(longer, u) {
      CarriesSnoc(arcs, Arc(t, node.children[t]), u);
    }
    assert StrictlySorted(longer);
    forall a, u | 0 <= a < |longer| && u in remaining - {t} ensures longer[a].token < u {
      assert a < |arcs| ==> longer[a] == arcs[a];
    }
  }

  lemma CarriesSnoc(arcs: seq<Arc>, arc: Arc, u: uint32)
    ensures Carries(arcs, u) || u == arc.token ==> Carries(arcs + [arc], u)
  {
    var longer := arcs + [arc];
    assert longer[|arcs|] == arc;
    if Carries(arcs, u) {
      var a :| 0 <= a < |arcs| && arcs[a].token == u;
      assert longer[a].token == u;
    }
  }

  /** The flat tables of a trie. */
  method Flatten<K>(trie: seq<Node>, ghost choices: seq<K>) returns (states: seq<StateRecord>, arcs: seq<Arc>)
    ensures LaysOut(Dfa(states, arcs, choices), trie)
    ensures |arcs| == ArcTotal(trie)
  {
    states, arcs := [], [];
    for i := 0 to |trie|
      invariant LaysOut(Dfa(states, arcs, choices), trie[..i])
      invariant |arcs| == ArcTotal(trie[..i])
    {
      TakeSnoc(trie, i);
      var more := ListArcs(trie[i]);
      states, arcs := AppendState(states, arcs, choices, trie[..i], trie[i], more);
    }
    assert trie[..|trie|] == trie;
  }

  lemma TakeSnoc<T>(s: seq<T>, i: nat)
    requires i < |s|
    ensures s[..i + 1] == s[..i] + [s[i]]
  {
  }

  /** One more record, and its arcs behind those of the earlier states. */
  method AppendState<K>(states: seq<StateRecord>, arcs: seq<Arc>, ghost choices: seq<K>, ghost trie: seq<Node>,
                        node: Node, more: seq<Arc>)
    returns (states': seq<StateRecord>, arcs': seq<Arc>)
    requires LaysOut(Dfa(states, arcs, choices), trie) && ListsChildren(more, node)
    requires |arcs| == ArcTotal(trie)
    ensures LaysOut(Dfa(states', arcs', choices), trie + [node])
    ensures |arcs'| == ArcTotal(trie + [node])
  {
    states' := states + [StateRecord(|arcs|, |node.children|, node.terminal)];
    arcs' := arcs + more;
    AppendedLayout(Dfa(states, arcs, choices), Dfa(states', arcs', choices), trie, node, more);
    assert (trie + [node])[..|trie|] == trie;
  }

  lemma AppendedLayout<K>(d: Dfa<K>, d': Dfa<K>, trie: seq<Node>, node: Node, more: seq<Arc>)
    requires LaysOut(d, trie) && ListsChildren(more, node)
    requires d'.states == d.states + [StateRecord(|d.arcs|, |node.children|, node.terminal)]
    requires d'.arcs == d.arcs + more
    ensures LaysOut(d', trie + [node])
  {
    var longer := trie + [node];
    assert InBounds(d');
    forall i | 0 <= i < |longer| ensures ListsChildren(Outgoing(d', i), longer[i]) {
      AppendedOutgoing(d, d', more, i);
      assert i < |trie| ==> ListsChildren(Outgoing(d, i), trie[i]);
    }
  }

  lemma AppendedOutgoing<K>(d: Dfa<K>, d': Dfa<K>, more: seq<Arc>, i: nat)
    requires InBounds(d) && InBounds(d') && i <= |d.states| && |d'.states| == |d.states| + 1
    requires i < |d.states| ==> d'.states[i] == d.states[i]
    requires d'.states[|d.states|].firstArc == |d.arcs| && d'.states[|d.states|].arcCount == |more|
    requires d'.arcs == d.arcs + more
    ensures Outgoing(d', i) == if i < |d.states| then Outgoing(d, i) else more
  {
  }

  // ---------- Building ----------

  /**
   * Compile a language. It succeeds exactly on the well-formed languages within the limits; the
   * failure code tells which of the two conditions is violated, and no other code occurs.
   */
  method Build<K(==,!new)>(language: seq<Choice<K>>, c: Config, reserved: K -> bool)
    returns (result: Result<Dfa<K>>, ghost trie: seq<Node>, ghost paths: seq<Word>)
    ensures result.Success? <==> WellFormed(language, c, reserved) && WithinLimits(language, c)
    ensures result.Success? ==> Represents(result.value, language, trie, paths)
    ensures result == Failure(InvalidArgument) ==> !WellFormed(language, c, reserved)
    ensures result == Failure(ResourceLimit) ==> !WithinLimits(language, c)
    ensures result.Failure? ==> result.error == InvalidArgument || result.error == ResourceLimit
  {
    trie, paths := [EMPTY_NODE], [[]];
    if language == [] || c.vocabularySize == 0 || c.maxTokens == 0 || c.maxChoices == 0 || c.maxStates == 0
      || c.maxArcs == 0
    {
      return Failure(InvalidArgument), trie, paths;
    }
    if |language| > c.maxChoices {
      return Failure(ResourceLimit), trie, paths;
    }
    var nodes, arcCount, status;
    var choices: seq<K>;
    status, nodes, choices, arcCount, paths := BuildTrie(language, c, reserved);
    trie := nodes;
    if status.Failure? {
      return Failure(status.error), trie, paths;
    }
    var states, arcs := Flatten(nodes, choices);
    if |arcs| != arcCount || |choices| != |language| {
      return Failure(InvalidFormat), trie, paths;
    }
    DistinctCard(paths);
    result := Success(Dfa(states, arcs, choices));
  }

  /** The loop over the choices. */
  method BuildTrie<K(==,!new)>(language: seq<Choice<K>>, c: Config, reserved: K -> bool)
    returns (status: Status, trie: seq<Node>, choices: seq<K>, arcCount: nat, ghost paths: seq<Word>)
    requires language != [] && Usable(c) && |language| <= c.maxChoices
    ensures status.Success? ==>
      && Spells(trie, paths, language)
      && arcCount == ArcTotal(trie) == |trie| - 1 && |trie| <= c.maxStates && arcCount <= c.maxArcs
      && |choices| == |language| && (forall k :: 0 <= k < |language| ==> choices[k] == language[k].id)
      && WellFormed(language, c, reserved)
    ensures status == Failure(InvalidArgument) ==> !WellFormed(language, c, reserved)
    ensures status == Failure(ResourceLimit) ==> Exceeds(Prefixes(language), c)
    ensures status.Failure? ==> status.error == InvalidArgument || status.error == ResourceLimit
  {
    status, trie, choices, arcCount, paths := OK, [EMPTY_NODE], [], 0, [[]];
    var ids: set<K> := {};
    NothingCompiled(language, c, reserved);
    for k := 0 to |language|
      invariant Compiled(language, k, c, reserved, trie, paths, choices, ids, arcCount)
    {
      var choice := language[k];
      if reserved(choice.id) || choice.tokens == [] || |choice.tokens| > c.maxTokens || choice.id in ids {
        RepeatedId(language, k, choices);
        return Failure(InvalidArgument), trie, choices, arcCount, paths;
      }
      var trie', arcCount';
      ghost var paths';
      status, trie', arcCount', paths' := AddChoice(language, k, c, reserved, trie, paths, choices, ids, arcCount);
      if status.Failure? {
        return;
      }
      CompiledSnoc(language, k, c, reserved, trie, paths, choices, ids, arcCount, trie', paths', arcCount');
      trie, paths, arcCount := trie', paths', arcCount';
      choices, ids := choices + [choice.id], ids + {choice.id};
    }
    assert language[..|language|] == language;
    status := OK;
  }

  lemma NothingCompiled<K(!new)>(language: seq<Choice<K>>, c: Config, reserved: K -> bool)
    requires Usable(c)
    ensures Compiled(language, 0, c, reserved, [EMPTY_NODE], [[]], [], {}, 0)
  {
    var trie, paths: seq<Word> := [EMPTY_NODE], [[]];
    assert trie[..0] == [];
    assert Elements(paths) == {[]} by {
      assert paths[0] in paths;
    }
    assert Prefixes(language[..0]) == {[]};
  }

  lemma RepeatedId<K>(language: seq<Choice<K>>, k: nat, choices: seq<K>)
    requires k < |language| && |choices| == k && forall j :: 0 <= j < k ==> choices[j] == language[j].id
    ensures language[k].id in choices ==> !IdsUnique(language)
  {
    if language[k].id in choices {
      var j :| 0 <= j < k && choices[j] == language[k].id;
    }
  }

  lemma CompiledSnoc<K(!new)>(language: seq<Choice<K>>, k: nat, c: Config, reserved: K -> bool,
                                                 trie: seq<Node>, paths: seq<Word>, choices: seq<K>, ids: set<K>,
                                                   arcCount: nat,
                                                 trie': seq<Node>, paths': seq<Word>, arcCount': nat)
    requires k < |language| && Compiled(language, k, c, reserved, trie, paths, choices, ids, arcCount)
    requires !reserved(language[k].id) && language[k].id !in ids && WordAllowed(language[k].tokens, c)
    requires Spells(trie', paths', language[..k + 1])
    requires arcCount' == ArcTotal(trie') == |trie'| - 1 && |trie'| <= c.maxStates && arcCount' <= c.maxArcs
    ensures Compiled(language, k + 1, c, reserved, trie', paths', choices + [language[k].id], ids + {language[k].id},
                     arcCount')
  {
    var id := language[k].id;
    assert Elements(choices + [id]) == Elements(choices) + {id};
    var longer := language[..k + 1];
    forall i, j | 0 <= i < j < k + 1 ensures longer[i].id != longer[j].id {
      if j < k {
        assert language[..k][i] == longer[i] && language[..k][j] == longer[j];
      } else {
        assert choices[i] in Elements(choices);
      }
    }
  }

  // ---------- Reading the tables ----------

  /** The arcs out of a state, or an error for a state that does not exist. */
  method Allowed<K>(d: Dfa<K>, state: nat) returns (r: Result<seq<Arc>>)
    requires InBounds(d)
    ensures r == if state < |d.states| then Success(Outgoing(d, state)) else Failure(InvalidArgument)
  {
    if state >= |d.states| {
      return Failure(InvalidArgument);
    }
    var record := d.states[state];
    r := Success(d.arcs[record.firstArc..record.firstArc + record.arcCount]);
  }

  /** The first index whose token is not below `token` (the library's binary search). */
  method LowerBound(arcs: seq<Arc>, token: uint32) returns (at: nat)
    requires StrictlySorted(arcs)
    ensures at <= |arcs|
    ensures forall i :: 0 <= i < at ==> arcs[i].token < token
    ensures forall i :: at <= i < |arcs| ==> arcs[i].token >= token
  {
    at := 0;
    var count: nat := |arcs|;
    while count > 0
      invariant at + count <= |arcs|
      invariant forall i :: 0 <= i < at ==> arcs[i].token < token
      invariant forall i :: at + count <= i < |arcs| ==> arcs[i].token >= token
    {
      var half := count / 2;
      if arcs[at + half].token < token {
        at, count := at + half + 1, count - half - 1;
      } else {
        count := half;
      }
    }
  }

  /** Follow one token: binary search finds what a scan of all arcs finds. */
  method Advance<K>(d: Dfa<K>, state: nat, token: uint32) returns (r: Result<nat>)
    requires InBounds(d) && forall i :: 0 <= i < |d.states| ==> StrictlySorted(Outgoing(d, i))
    ensures r.Success? <==> Next(d, state, token).Some?
    ensures r.Success? ==> r.value == Next(d, state, token).value
    ensures r.Failure? ==> r.error == InvalidArgument
  {
    var outgoing := Allowed(d, state);
    if outgoing.Failure? {
      return Failure(outgoing.error);
    }
    var arcs := outgoing.value;
    LookupFinds(arcs, token);
    var at := LowerBound(arcs, token);
    if at == |arcs| || arcs[at].token != token {
      return Failure(InvalidArgument);
    }
    r := Success(arcs[at].next);
  }

  /**
   * In the tables of a language, the arcs of the state of `w` carry exactly the tokens that
   * continue `w` towards some word.
   */
  lemma AllowedExact<K(!new)>(d: Dfa<K>, language: seq<Choice<K>>, trie: seq<Node>, paths: seq<Word>,
                                                 w: Word, state: nat, t: uint32)
    requires Represents(d, language, trie, paths)
    requires Walk(d, 0, w) == Some(state)
    ensures state < |d.states|
    ensures Carries(Outgoing(d, state), t) <==> exists k :: 0 <= k < |language| && w + [t] <= language[k].tokens
  {
    WalkExact(d, trie, paths, w);
    ChildExact(trie, paths, state, t);
    PrefixMembership(language, w + [t]);
    CarriesChild(Outgoing(d, state), trie[state], t);
  }

  lemma CarriesChild(arcs: seq<Arc>, node: Node, t: uint32)
    requires ListsChildren(arcs, node)
    ensures Carries(arcs, t) <==> t in node.children
  {
    if Carries(arcs, t) {
      var a :| 0 <= a < |arcs| && arcs[a].token == t;
    }
  }
}
