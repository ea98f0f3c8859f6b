/** The automaton as flat tables, and what it means for the tables to represent a language. */
module TokenDfa {
  import opened Core
  import opened Counting
  import opened TokenTrie

  datatype StateRecord = StateRecord(firstArc: nat, arcCount: nat, terminal: uint32)

  datatype Arc = Arc(token: uint32, next: nat)

  datatype Dfa<K> = Dfa(states: seq<StateRecord>, arcs: seq<Arc>, choices: seq<K>)

  // ---------- Reading the tables ----------

  predicate InBounds<K>(d: Dfa<K>) {
    forall i :: 0 <= i < |d.states| ==> d.states[i].firstArc + d.states[i].arcCount <= |d.arcs|
  }

  function Outgoing<K>(d: Dfa<K>, state: nat): (r: seq<Arc>)
    requires InBounds(d) && state < |d.states|
  {
    d.arcs[d.states[state].firstArc..d.states[state].firstArc + d.states[state].arcCount]
  }

  /** The arc of a token, by inspection of every arc. */
  function Lookup(arcs: seq<Arc>, token: uint32): Option<nat> {
    if arcs == [] then None
    else if arcs[|arcs| - 1].token == token then Some(arcs[|arcs| - 1].next)
    else Lookup(arcs[..|arcs| - 1], token)
  }

  function Next<K>(d: Dfa<K>, state: nat, token: uint32): Option<nat>
    requires InBounds(d)
  {
    if state < |d.states| then Lookup(Outgoing(d, state), token) else None
  }

  /** Follow a word from `state`. */
  function Walk<K>(d: Dfa<K>, state: nat, w: Word): Option<nat>
    requires InBounds(d)
    decreases |w|
  {
    if w == [] then Some(state)
    else
      match Walk(d, state, w[..|w| - 1])
      case None => None
      case Some(s) => Next(d, s, w[|w| - 1])
  }

  predicate IsTerminal<K>(d: Dfa<K>, state: nat) {
    state < |d.states| && d.states[state].terminal != NO_TERMINAL
  }

  function DecodeTerminal<K>(d: Dfa<K>, state: nat): Result<K> {
    if state >= |d.states| then Failure(InvalidArgument)
    else if d.states[state].terminal == NO_TERMINAL || d.states[state].terminal >= |d.choices| then
      Failure(InvalidArgument)
    else Success(d.choices[d.states[state].terminal])
  }

  // ---------- Representation ----------

  ghost predicate Carries(arcs: seq<Arc>, token: uint32) {
    exists a :: 0 <= a < |arcs| && arcs[a].token == token
  }

  predicate StrictlySorted(arcs: seq<Arc>) {
    forall i, j :: 0 <= i < j < |arcs| ==> arcs[i].token < arcs[j].token
  }

  /** The arcs of a state are the children of its node, sorted by token. */
  ghost predicate ListsChildren(arcs: seq<Arc>, node: Node) {
    && StrictlySorted(arcs)
    && |arcs| == |node.children|
    && (forall a :: 0 <= a < |arcs| ==> arcs[a].token in node.children && node.children[arcs[a].token] == arcs[a].next)
    && (forall t :: t in node.children ==> Carries(arcs, t))
  }

  /** Terminal marks and choice indices agree with the words of the language. */
  ghost predicate MarksWords<K>(trie: seq<Node>, paths: seq<Word>, language: seq<Choice<K>>)
    requires |trie| == |paths|
  {
    && |language| <= NO_TERMINAL
    && (forall i :: 0 <= i < |trie| && trie[i].terminal != NO_TERMINAL ==>
          trie[i].terminal < |language| && language[trie[i].terminal].tokens == paths[i])
    && (forall k :: 0 <= k < |language| ==> MarkedBy(trie, paths, language[k].tokens, k))
  }

  ghost predicate MarkedBy(trie: seq<Node>, paths: seq<Word>, w: Word, k: nat)
    requires |trie| == |paths|
  {
    exists i :: 0 <= i < |trie| && paths[i] == w && trie[i].terminal == k
  }

  /** A trie of exactly the prefixes of a prefix-free language. */
  ghost predicate Spells<K>(trie: seq<Node>, paths: seq<Word>, language: seq<Choice<K>>) {
    && IsTrie(trie, paths)
    && Elements(paths) == Prefixes(language)
    && MarksWords(trie, paths, language)
    && PrefixFree(language)
    && (forall k :: 0 <= k < |language| ==> language[k].tokens != [])
  }

  /** The tables lay out the trie: state by state, each with its children in order. */
  ghost predicate LaysOut<K>(d: Dfa<K>, trie: seq<Node>) {
    && |d.states| == |trie|
    && InBounds(d)
    && (forall i :: 0 <= i < |trie| ==> ListsChildren(Outgoing(d, i), trie[i]))
    && (forall i :: 0 <= i < |trie| ==> d.states[i].terminal == trie[i].terminal)
  }

  /** The flat tables spell out a trie of exactly the prefixes of the language. */
  ghost predicate Represents<K>(d: Dfa<K>, language: seq<Choice<K>>, trie: seq<Node>, paths: seq<Word>) {
    && language != []
    && Spells(trie, paths, language)
    && LaysOut(d, trie)
    && |d.arcs| == ArcTotal(trie) == |trie| - 1
    && |d.choices| == |language|
    && (forall k :: 0 <= k < |language| ==> d.choices[k] == language[k].id)
  }

  // ---------- What representation gives ----------

  lemma {:induction false} LookupFinds(arcs: seq<Arc>, token: uint32)
    requires StrictlySorted(arcs)
    ensures Lookup(arcs, token).Some? <==> Carries(arcs, token)
    ensures forall a :: 0 <= a < |arcs| && arcs[a].token == token ==> Lookup(arcs, token) == Some(arcs[a].next)
  {
    if arcs == [] {
    } else {
      LookupFinds(arcs[..|arcs| - 1], token);
    }
  }

  /** From the state of a word, a token leads on exactly when some state stands for the longer word. */
  lemma NextExact<K>(d: Dfa<K>, trie: seq<Node>, paths: seq<Word>, i: nat, t: uint32)
    requires IsTrie(trie, paths) && LaysOut(d, trie) && i < |paths|
    ensures Next(d, i, t).Some? <==> paths[i] + [t] in Elements(paths)
    ensures Next(d, i, t).Some? ==>
      i < Next(d, i, t).value < |paths| && paths[Next(d, i, t).value] == paths[i] + [t]
  {
    ChildExact(trie, paths, i, t);
    ListedChild(Outgoing(d, i), trie[i], t);
    assert ArcsForward(trie, paths, i);
  }

  lemma ListedChild(arcs: seq<Arc>, node: Node, t: uint32)
    requires ListsChildren(arcs, node)
    ensures Lookup(arcs, t) == if t in node.children then Some(node.children[t]) else None
  {
    LookupFinds(arcs, t);
    if t in node.children {
      assert Carries(arcs, t);
      var a :| 0 <= a < |arcs| && arcs[a].token == t;
    }
  }

  /** From the root, a word leads to the state that stands for it, if there is one. */
  lemma {:induction false} WalkExact<K>(d: Dfa<K>, trie: seq<Node>, paths: seq<Word>, w: Word)
    requires IsTrie(trie, paths) && LaysOut(d, trie)
    ensures Walk(d, 0, w).Some? <==> w in Elements(paths)
    ensures Walk(d, 0, w).Some? ==> Walk(d, 0, w).value < |paths| && paths[Walk(d, 0, w).value] == w
    decreases |w|
  {
    if w == [] {
      assert paths[0] in Elements(paths);
    } else {
      var init, last := w[..|w| - 1], w[|w| - 1];
      assert w == init + [last];
      WalkExact(d, trie, paths, init);
      match Walk(d, 0, init) {
        case Some(s) => NextExact(d, trie, paths, s, last);
        case None => ShorterWord(trie, paths, init, last);
      }
    }
  }

  lemma ShorterWord(trie: seq<Node>, paths: seq<Word>, init: Word, last: uint32)
    requires IsTrie(trie, paths)
    ensures init + [last] in Elements(paths) ==> init in Elements(paths)
  {
    if init + [last] in Elements(paths) {
      var c :| 0 <= c < |paths| && paths[c] == init + [last];
      assert HasParent(trie, paths, c);
      var i :| 0 <= i < c && paths[c] == paths[i] + [paths[c][|paths[c]| - 1]]
        && paths[c][|paths[c]| - 1] in trie[i].children && trie[i].children[paths[c][|paths[c]| - 1]] == c;
      assert paths[i] == paths[c][..|paths[c]| - 1] == init;
    }
  }

  /** Each word of the language leads to a terminal state that decodes to its id. */
  lemma AcceptsWord<K(!new)>(d: Dfa<K>, language: seq<Choice<K>>, trie: seq<Node>, paths: seq<Word>,
                                                k: nat)
    requires Represents(d, language, trie, paths) && k < |language|
    ensures var end := Walk(d, 0, language[k].tokens);
      end.Some? && DecodeTerminal(d, end.value) == Success(language[k].id)
  {
    var w := language[k].tokens;
    PrefixMembership(language, w);
    assert w <= language[k].tokens;
    WalkExact(d, trie, paths, w);
    MarkedState(trie, paths, w, k, Walk(d, 0, w).value);
  }

  lemma MarkedState(trie: seq<Node>, paths: seq<Word>, w: Word, k: nat, s: nat)
    requires |trie| == |paths| && Distinct(paths) && MarkedBy(trie, paths, w, k) && s < |paths| && paths[s] == w
    ensures trie[s].terminal == k
  {
    var i :| 0 <= i < |trie| && paths[i] == w && trie[i].terminal == k;
    assert i == s;
  }

  /** A terminal state decodes to the id of the word it stands for. */
  lemma DecodesWord<K>(d: Dfa<K>, language: seq<Choice<K>>, trie: seq<Node>, paths: seq<Word>, s: nat, id: K)
    requires Represents(d, language, trie, paths) && s < |paths|
    requires DecodeTerminal(d, s) == Success(id)
    ensures Choice(id, paths[s]) in language
  {
    var k := d.states[s].terminal;
    assert language[k] == Choice(id, paths[s]);
  }

  /**
   * The automaton recognises the language: a word leads from the root to a terminal state that
   * decodes to an id exactly when the language holds that id with that word.
   */
  lemma RecognisesLanguage<K(!new)>(d: Dfa<K>, language: seq<Choice<K>>, trie: seq<Node>,
                                                       paths: seq<Word>, w: Word, id: K)
    requires Represents(d, language, trie, paths)
    ensures (Walk(d, 0, w).Some? && DecodeTerminal(d, Walk(d, 0, w).value) == Success(id))
      <==> Choice(id, w) in language
  {
    if Choice(id, w) in language {
      var k :| 0 <= k < |language| && language[k] == Choice(id, w);
      AcceptsWord(d, language, trie, paths, k);
    }
    if Walk(d, 0, w).Some? && DecodeTerminal(d, Walk(d, 0, w).value) == Success(id) {
      WalkExact(d, trie, paths, w);
      DecodesWord(d, language, trie, paths, Walk(d, 0, w).value, id);
    }
  }

  /** There is one state per distinct prefix, and one arc into every state but the root. */
  lemma StatesCounted<K(!new)>(d: Dfa<K>, language: seq<Choice<K>>, trie: seq<Node>,
                                                  paths: seq<Word>)
    requires Represents(d, language, trie, paths)
    ensures |d.states| == |Prefixes(language)| == |d.arcs| + 1
  {
    DistinctCard(paths);
  }

  /** Every state is reached by its word, and arcs only lead to later states. */
  lemma EveryStateReachable<K(!new)>(d: Dfa<K>, language: seq<Choice<K>>, trie: seq<Node>,
                                                        paths: seq<Word>, i: nat)
    requires Represents(d, language, trie, paths) && i < |d.states|
    ensures Walk(d, 0, paths[i]) == Some(i)
    ensures forall a :: 0 <= a < |Outgoing(d, i)| ==> i < Outgoing(d, i)[a].next < |d.states|
  {
    StateReached(d, trie, paths, i);
    ArcsLeadForward(Outgoing(d, i), trie, paths, i);
  }

  lemma StateReached<K>(d: Dfa<K>, trie: seq<Node>, paths: seq<Word>, i: nat)
    requires IsTrie(trie, paths) && LaysOut(d, trie) && i < |trie|
    ensures Walk(d, 0, paths[i]) == Some(i)
  {
    assert paths[i] in Elements(paths);
    WalkExact(d, trie, paths, paths[i]);
  }

  lemma ArcsLeadForward(arcs: seq<Arc>, trie: seq<Node>, paths: seq<Word>, i: nat)
    requires IsTrie(trie, paths) && i < |trie| && ListsChildren(arcs, trie[i])
    ensures forall a :: 0 <= a < |arcs| ==> i < arcs[a].next < |trie|
  {
    assert ArcsForward(trie, paths, i);
  }

  lemma {:induction false} WalkConcat<K>(d: Dfa<K>, state: nat, v: Word, w: Word)
    requires InBounds(d) && Walk(d, state, v).Some?
    ensures Walk(d, state, v + w) == Walk(d, Walk(d, state, v).value, w)
    decreases |w|
  {
    if w == [] {
      assert v + w == v;
    } else {
      assert (v + w)[..|v + w| - 1] == v + w[..|w| - 1];
      WalkConcat(d, state, v, w[..|w| - 1]);
    }
  }

  /** No dead ends: from every state some word leads to a terminal state; terminal states have no arcs. */
  lemma NoDeadEnd<K(!new)>(d: Dfa<K>, language: seq<Choice<K>>, trie: seq<Node>, paths: seq<Word>,
                                              i: nat)
    returns (w: Word)
    requires Represents(d, language, trie, paths) && i < |d.states|
    ensures Walk(d, i, w).Some? && IsTerminal(d, Walk(d, i, w).value)
    ensures IsTerminal(d, i) <==> Outgoing(d, i) == []
  {
    var k;
    k, w := Completion(trie, paths, language, i);
    EveryStateReachable(d, language, trie, paths, i);
    WalkConcat(d, 0, paths[i], w);
    RecognisesLanguage(d, language, trie, paths, paths[i] + w, language[k].id);
    TerminalIsLeaf(trie, paths, language, i);
    EmptyListing(Outgoing(d, i), trie[i]);
  }

  /** Every prefix of the language is completed by some word of it. */
  lemma Completion<K(!new)>(trie: seq<Node>, paths: seq<Word>, language: seq<Choice<K>>, i: nat)
    returns (k: nat, w: Word)
    requires Spells(trie, paths, language) && language != [] && i < |paths|
    ensures k < |language| && paths[i] + w == language[k].tokens
    ensures Choice(language[k].id, paths[i] + w) in language
  {
    assert paths[i] in Elements(paths);
    PrefixMembership(language, paths[i]);
    assert paths[i] == [] ==> paths[i] <= language[0].tokens;
    k :| 0 <= k < |language| && paths[i] <= language[k].tokens;
    w := language[k].tokens[|paths[i]|..];
    assert language[k] == Choice(language[k].id, paths[i] + w);
  }

  lemma EmptyListing(arcs: seq<Arc>, node: Node)
    requires ListsChildren(arcs, node)
    ensures arcs == [] <==> node.children == map[]
  {
    if arcs == [] {
      assert |node.children| == 0;
    }
  }

  /** The terminal states are exactly the leaves. */
  lemma TerminalIsLeaf<K(!new)>(trie: seq<Node>, paths: seq<Word>, language: seq<Choice<K>>, i: nat)
    requires Spells(trie, paths, language) && language != [] && i < |trie|
    ensures trie[i].terminal != NO_TERMINAL <==> trie[i].children == map[]
  {
    if trie[i].terminal != NO_TERMINAL {
      forall t: uint32 ensures t !in trie[i].children {
        NoChildBelowWord(trie, paths, language, i, t);
      }
    } else {
      var k, w := Completion(trie, paths, language, i);
      InnerHasChild(trie, paths, language, i, k, w);
    }
  }

  lemma ProperPrefix(u: Word, t: uint32, v: Word)
    ensures u + [t] <= v ==> u <= v && u != v
  {
    if u + [t] <= v { assert u == v[..|u|]; }
  }

  lemma NoChildBelowWord<K(!new)>(trie: seq<Node>, paths: seq<Word>, language: seq<Choice<K>>,
                                                     i: nat, t: uint32)
    requires Spells(trie, paths, language) && i < |trie| && trie[i].terminal != NO_TERMINAL
    ensures t !in trie[i].children
  {
    var m := trie[i].terminal;
    assert language[m].tokens == paths[i];
    ChildExact(trie, paths, i, t);
    PrefixMembership(language, paths[i] + [t]);
    forall j | 0 <= j < |language| ensures !(paths[i] + [t] <= language[j].tokens) {
      ProperPrefix(paths[i], t, language[j].tokens);
    }
  }

  lemma NextToken(u: Word, w: Word, v: Word)
    requires u + w == v && u != v
    ensures w != [] && u + [w[0]] <= v
  {
    assert w == [] ==> u + w == u;
  }

  lemma InnerHasChild<K(!new)>(trie: seq<Node>, paths: seq<Word>, language: seq<Choice<K>>, i: nat,
                                                  k: nat, w: Word)
    requires Spells(trie, paths, language) && i < |trie| && trie[i].terminal == NO_TERMINAL
    requires k < |language| && paths[i] + w == language[k].tokens
    ensures trie[i].children != map[]
  {
    assert MarkedBy(trie, paths, language[k].tokens, k);
    var j :| 0 <= j < |trie| && paths[j] == language[k].tokens && trie[j].terminal == k;
    assert i != j;
    NextToken(paths[i], w, language[k].tokens);
    PrefixMembership(language, paths[i] + [w[0]]);
    ChildExact(trie, paths, i, w[0]);
  }
}
