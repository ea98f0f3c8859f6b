/** The greedy choice over the logits, and runs of calls against the cache-free decoder. */
module DecoderGreedy {
  import opened Core
  import opened DecoderRows
  import opened DecoderModel

  datatype GreedyToken<F> = GreedyToken(token: nat, logit: F, runnerUp: F)

  /** The scan of the first `n` logits. */
  function Greedy<F>(fl: Ops<F>, logits: Row<F>, n: nat): GreedyToken<F>
    requires n <= |logits|
  {
    if n == 0 then GreedyToken(0, fl.lowest, fl.lowest)
    else
      var g, value := Greedy(fl, logits, n - 1), logits[n - 1];
      if fl.less(g.logit, value) then GreedyToken(n - 1, value, g.logit)
      else if fl.less(g.runnerUp, value) then g.(runnerUp := value)
      else g
  }

  ghost predicate AllFinite<F>(fl: Ops<F>, logits: Row<F>, n: nat)
    requires n <= |logits|
  {
    forall i :: 0 <= i < n ==> fl.finite(logits[i])
  }

  // ---------- The greedy choice is the first largest logit ----------

  ghost predicate Comparable<F>(fl: Ops<F>, x: F) { fl.finite(x) || x == fl.lowest }

  /** Comparison as IEEE 754 gives it on finite values and minus infinity: a strict weak order with a least element. */
  ghost predicate Ordered<F(!new)>(fl: Ops<F>) {
    && (forall a, b :: Comparable(fl, a) && Comparable(fl, b) && fl.less(a, b) ==> !fl.less(b, a))
    && (forall a, b, c :: Comparable(fl, a) && Comparable(fl, b) && Comparable(fl, c) && fl.less(a, c) ==>
          fl.less(a, b) || fl.less(b, c))
    && (forall a :: fl.finite(a) ==> fl.less(fl.lowest, a))
  }

  /** The chosen token has the largest logit, and the earlier tokens have smaller ones. */
  ghost predicate FirstLargest<F>(fl: Ops<F>, logits: Row<F>, n: nat, g: GreedyToken<F>)
    requires n <= |logits|
  {
    && g.token < n && g.logit == logits[g.token]
    && (forall i :: 0 <= i < n ==> !fl.less(g.logit, logits[i]))
    && (forall i :: 0 <= i < g.token ==> fl.less(logits[i], g.logit))
  }

  /** The runner-up is the largest of the other logits. */
  ghost predicate LargestOfOthers<F>(fl: Ops<F>, logits: Row<F>, n: nat, g: GreedyToken<F>)
    requires n <= |logits|
  {
    && (n == 1 ==> g.runnerUp == fl.lowest)
    && (n > 1 ==> exists j :: 0 <= j < n && j != g.token && g.runnerUp == logits[j])
    && (forall i :: 0 <= i < n && i != g.token ==> !fl.less(g.runnerUp, logits[i]))
  }

  lemma {:induction false} GreedyChoosesFirstLargest<F(!new)>(fl: Ops<F>, logits: Row<F>, n: nat)
    requires 0 < n <= |logits| && AllFinite(fl, logits, n) && Ordered(fl)
    ensures FirstLargest(fl, logits, n, Greedy(fl, logits, n))
    ensures LargestOfOthers(fl, logits, n, Greedy(fl, logits, n))
  {
    if n > 1 {
      GreedyChoosesFirstLargest(fl, logits, n - 1);
      BestStep(fl, logits, n - 1, Greedy(fl, logits, n - 1), Greedy(fl, logits, n));
      RunnerUpStep(fl, logits, n - 1, Greedy(fl, logits, n - 1), Greedy(fl, logits, n));
    } else {
      assert Greedy(fl, logits, 0) == GreedyToken(0, fl.lowest, fl.lowest);
    }
  }

  ghost predicate Scanned<F>(fl: Ops<F>, value: F, n: nat, g: GreedyToken<F>, next: GreedyToken<F>) {
    next == if fl.less(g.logit, value) then GreedyToken(n, value, g.logit)
            else if fl.less(g.runnerUp, value) then g.(runnerUp := value) else g
  }

  lemma BestStep<F(!new)>(fl: Ops<F>, logits: Row<F>, n: nat, g: GreedyToken<F>,
                                             next: GreedyToken<F>)
    requires n < |logits| && AllFinite(fl, logits, n + 1) && Ordered(fl)
    requires FirstLargest(fl, logits, n, g) && Scanned(fl, logits[n], n, g, next)
    ensures FirstLargest(fl, logits, n + 1, next)
  {
    assert Comparable(fl, logits[n]) && Comparable(fl, g.logit);
    forall i | 0 <= i < n + 1 ensures !fl.less(next.logit, logits[i]) {
      assert Comparable(fl, logits[i]);
    }
    forall i | 0 <= i < next.token ensures fl.less(logits[i], next.logit) {
      assert Comparable(fl, logits[i]);
    }
  }

  lemma RunnerUpStep<F(!new)>(fl: Ops<F>, logits: Row<F>, n: nat, g: GreedyToken<F>,
                                                 next: GreedyToken<F>)
    requires 0 < n < |logits| && AllFinite(fl, logits, n + 1) && Ordered(fl)
    requires FirstLargest(fl, logits, n, g) && LargestOfOthers(fl, logits, n, g) && Scanned(fl, logits[n], n, g, next)
    ensures LargestOfOthers(fl, logits, n + 1, next)
  {
    assert Comparable(fl, logits[n]) && Comparable(fl, g.logit);
    assert Comparable(fl, g.runnerUp);
    assert n == 1 ==> fl.less(fl.lowest, logits[n]);
    forall i | 0 <= i < n + 1 && i != next.token ensures !fl.less(next.runnerUp, logits[i]) {
      assert Comparable(fl, logits[i]);
    }
    if fl.less(g.logit, logits[n]) {
      assert next.runnerUp == logits[g.token] && g.token != next.token;
    } else if fl.less(g.runnerUp, logits[n]) {
      assert next.runnerUp == logits[n] && n != next.token;
    }
  }

  // ---------- Runs of calls ----------

  datatype Limits = Limits(context: nat, prefill: nat)

  datatype Call = Prefill(tokens: seq<nat>) | Decode(token: nat) | Reset

  /** The tokens that a call feeds to the model, if the state allows the call. */
  function Feeds(limits: Limits, history: seq<nat>, call: Call): Option<seq<nat>> {
    match call
    case Prefill(tokens) => if history == [] && tokens != [] && |tokens| <= limits.prefill then Some(tokens) else None
    case Decode(token) => if history != [] then Some([token]) else None
    case Reset => None
  }

  /** Feeding tokens works if they fit, belong to the vocabulary and give finite logits. */
  ghost predicate Accepted<F>(m: Model<F>, limits: Limits, history: seq<nat>, tokens: seq<nat>)
    requires ModelValid(m) && Tokens(m, history)
  {
    && tokens != [] && |tokens| <= limits.prefill && |history| + |tokens| <= limits.context
    && Tokens(m, tokens)
    && (TokensConcat(m, history, tokens);
        AllFinite(m.fl, Logits(m, history + tokens), m.spec.vocabularySize))
  }

  lemma TokensConcat<F>(m: Model<F>, history: seq<nat>, tokens: seq<nat>)
    requires Tokens(m, history) && Tokens(m, tokens)
    ensures Tokens(m, history + tokens)
  {
  }

  /** The history after a call, by evaluating whole histories. */
  ghost function After<F>(m: Model<F>, limits: Limits, history: seq<nat>, call: Call): (r: seq<nat>)
    requires ModelValid(m) && Tokens(m, history)
    ensures Tokens(m, r)
  {
    if call == Reset then []
    else
      match Feeds(limits, history, call)
      case None => history
      case Some(tokens) => if Accepted(m, limits, history, tokens) then history + tokens else history
  }

  /** What a call answers: the greedy token and the logits, nothing for a reset, or a failure. */
  datatype Answer<F> = Answered(best: GreedyToken<F>, logits: Row<F>) | Cleared | Refused

  /** The answer to a call, by evaluating the whole history without a cache. */
  ghost function Outcome<F>(m: Model<F>, limits: Limits, history: seq<nat>, call: Call): Answer<F>
    requires ModelValid(m) && Tokens(m, history)
  {
    if call == Reset then Cleared
    else
      match Feeds(limits, history, call)
      case None => Refused
      case Some(tokens) =>
        if Accepted(m, limits, history, tokens)
        then (TokensConcat(m, history, tokens);
              var logits := Logits(m, history + tokens);
              Answered(Greedy(m.fl, logits, m.spec.vocabularySize), logits))
        else Refused
  }

  ghost function AfterAll<F>(m: Model<F>, limits: Limits, history: seq<nat>, calls: seq<Call>): (r: seq<nat>)
    requires ModelValid(m) && Tokens(m, history)
    ensures Tokens(m, r)
  {
    if calls == [] then history
    else After(m, limits, AfterAll(m, limits, history, calls[..|calls| - 1]), calls[|calls| - 1])
  }

  /** The answers to a sequence of calls. */
  ghost function Outcomes<F>(m: Model<F>, limits: Limits, history: seq<nat>, calls: seq<Call>): (r: seq<Answer<F>>)
    requires ModelValid(m) && Tokens(m, history)
    ensures |r| == |calls|
  {
    if calls == [] then []
    else
      var init, last := calls[..|calls| - 1], calls[|calls| - 1];
      Outcomes(m, limits, history, init) + [Outcome(m, limits, AfterAll(m, limits, history, init), last)]
  }

  lemma AfterSnoc<F>(m: Model<F>, limits: Limits, history: seq<nat>, calls: seq<Call>, call: Call)
    requires ModelValid(m) && Tokens(m, history)
    ensures AfterAll(m, limits, history, calls + [call]) == After(m, limits, AfterAll(m, limits, history, calls), call)
    ensures Outcomes(m, limits, history, calls + [call])
      == Outcomes(m, limits, history, calls) + [Outcome(m, limits, AfterAll(m, limits, history, calls), call)]
  {
    hide ModelValid, Tokens, After, Outcome;
    assert (calls + [call])[..|calls|] == calls;
  }

  // ---------- Failed calls ----------

  /** The calls that were not refused. */
  function Effective<F>(calls: seq<Call>, answers: seq<Answer<F>>): seq<Call>
    requires |answers| == |calls|
  {
    if calls == [] then []
    else
      var n := |calls| - 1;
      Effective(calls[..n], answers[..n]) + (if answers[n].Refused? then [] else [calls[n]])
  }

  /** The answers other than refusals. */
  function Given<F>(answers: seq<Answer<F>>): seq<Answer<F>> {
    if answers == [] then []
    else
      var n := |answers| - 1;
      Given(answers[..n]) + (if answers[n].Refused? then [] else [answers[n]])
  }

  lemma RefusedKeepsHistory<F>(m: Model<F>, limits: Limits, history: seq<nat>, call: Call)
    requires ModelValid(m) && Tokens(m, history) && Outcome(m, limits, history, call).Refused?
    ensures After(m, limits, history, call) == history
  {
    hide ModelValid, Accepted, Logits;
  }

  /**
   * Failed calls have no effect on later ones: left out, the other calls get the same answers,
   * token and logits, and end in the same history.
   */
  lemma {:induction false} FailuresInvisible<F>(m: Model<F>, limits: Limits, history: seq<nat>, calls: seq<Call>)
    requires ModelValid(m) && Tokens(m, history)
    ensures var answers := Outcomes(m, limits, history, calls);
      && Outcomes(m, limits, history, Effective(calls, answers)) == Given(answers)
      && AfterAll(m, limits, history, Effective(calls, answers)) == AfterAll(m, limits, history, calls)
  {
    hide ModelValid, Tokens, After, Outcome;
    if calls == [] {
    } else {
      var init, last := calls[..|calls| - 1], calls[|calls| - 1];
      var earlier := Outcomes(m, limits, history, init);
      FailuresInvisible(m, limits, history, init);
      var reached := AfterAll(m, limits, history, init);
      var answers := Outcomes(m, limits, history, calls);
      assert answers[..|calls| - 1] == earlier;
      if answers[|calls| - 1].Refused? {
        RefusedKeepsHistory(m, limits, reached, last);
        assert Effective(calls, answers) == Effective(init, earlier) && Given(answers) == Given(earlier);
      } else {
        AfterSnoc(m, limits, history, Effective(init, earlier), last);
      }
    }
  }

  // ---------- One token at a time ----------

  /** The answer to a whole text at once, on an empty context. */
  ghost function Whole<F>(m: Model<F>, context: nat, text: seq<nat>): Answer<F>
    requires ModelValid(m)
  {
    assert Tokens(m, []);
    Outcome(m, Limits(context, context), [], Prefill(text))
  }

  /** One decode call per token. */
  function Decodes(tokens: seq<nat>): seq<Call> {
    seq(|tokens|, i requires 0 <= i < |tokens| => Decode(tokens[i]))
  }

  /** Decoding one more token answers what the whole text answers at once, failures included. */
  lemma DecodeIsWhole<F>(m: Model<F>, limits: Limits, history: seq<nat>, token: nat)
    requires ModelValid(m) && Tokens(m, history) && history != [] && limits.prefill > 0
    ensures Outcome(m, limits, history, Decode(token)) == Whole(m, limits.context, history + [token])
    ensures !Outcome(m, limits, history, Decode(token)).Refused? ==>
      After(m, limits, history, Decode(token)) == history + [token]
  {
    hide ModelValid, Logits, AllFinite;
    var longer := history + [token];
    assert [] + longer == longer;
    assert token == longer[|history|];
    assert Tokens(m, longer) <==> Tokens(m, [token]);
  }

  lemma PrefillIsWhole<F>(m: Model<F>, limits: Limits, prompt: seq<nat>)
    requires ModelValid(m) && Tokens(m, [])
    ensures Outcome(m, limits, [], Prefill(prompt)) ==
      if |prompt| <= limits.prefill then Whole(m, limits.context, prompt) else Refused
    ensures !Outcome(m, limits, [], Prefill(prompt)).Refused? ==>
      prompt != [] && After(m, limits, [], Prefill(prompt)) == prompt
  {
    hide ModelValid, Logits, AllFinite;
    assert [] + prompt == prompt;
  }

  /** A single call that evaluates a whole text. */
  lemma WholeCall<F>(m: Model<F>, context: nat, text: seq<nat>)
    requires ModelValid(m) && Tokens(m, [])
    ensures var limits, calls := Limits(context, context), [Prefill(text)];
      && Outcomes(m, limits, [], calls) == [Whole(m, context, text)]
      && (!Whole(m, context, text).Refused? ==>
            Whole(m, context, text).Answered? && AfterAll(m, limits, [], calls) == text)
  {
    hide ModelValid, Logits, AllFinite;
    assert [Prefill(text)] == [] + [Prefill(text)] && [] + text == text;
    AfterSnoc(m, Limits(context, context), [], [], Prefill(text));
  }

  ghost predicate NoneRefused<F>(answers: seq<Answer<F>>) {
    forall k :: 0 <= k < |answers| ==> !answers[k].Refused?
  }

  lemma RefusalsSnoc<F>(answers: seq<Answer<F>>, last: Answer<F>)
    ensures NoneRefused(answers + [last]) <==> NoneRefused(answers) && !last.Refused?
  {
    var all := answers + [last];
    assert forall k :: 0 <= k < |answers| ==> all[k] == answers[k];
    assert all[|answers|] == last;
  }

  /** Every prefix of the text from the prompt on is answered when it is evaluated at once. */
  ghost predicate PrefixesAnswered<F>(m: Model<F>, context: nat, prompt: seq<nat>, text: seq<nat>)
    requires ModelValid(m)
  {
    forall k :: 0 <= k <= |text| ==> !Whole(m, context, prompt + text[..k]).Refused?
  }

  lemma PrefixesSnoc<F>(m: Model<F>, context: nat, prompt: seq<nat>, text: seq<nat>)
    requires ModelValid(m) && text != []
    ensures PrefixesAnswered(m, context, prompt, text) <==>
      PrefixesAnswered(m, context, prompt, text[..|text| - 1]) && !Whole(m, context, prompt + text).Refused?
  {
    hide ModelValid, Whole;
    var init := text[..|text| - 1];
    assert forall k :: 0 <= k <= |init| ==> init[..k] == text[..k];
    assert text[..|text|] == text;
  }

  /** A prompt, then one token at a time. */
  function OneByOne(prompt: seq<nat>, text: seq<nat>): (r: seq<Call>)
    ensures |r| == |text| + 1
  {
    [Prefill(prompt)] + Decodes(text)
  }

  lemma OneByOneSnoc(prompt: seq<nat>, text: seq<nat>)
    requires text != []
    ensures OneByOne(prompt, text) == OneByOne(prompt, text[..|text| - 1]) + [Decode(text[|text| - 1])]
  {
  }

  lemma OneByOneNil(prompt: seq<nat>)
    ensures OneByOne(prompt, []) == [] + [Prefill(prompt)]
  {
  }

  lemma PrefixesNil<F>(m: Model<F>, context: nat, prompt: seq<nat>)
    requires ModelValid(m)
    ensures PrefixesAnswered(m, context, prompt, []) <==> !Whole(m, context, prompt).Refused?
  {
    hide ModelValid, Whole;
    var text: seq<nat> := [];
    assert forall k :: 0 <= k <= |text| ==> prompt + text[..k] == prompt;
    if !Whole(m, context, prompt).Refused? {
      assert PrefixesAnswered(m, context, prompt, []);
    } else {
      assert Whole(m, context, prompt + text[..0]).Refused?;
    }
  }

  /**
   * A prompt and then one token at a time. No call fails exactly when the prompt fits the prefill limit
   * and every prefix of the text is answered at once; then each call answers, token and logits, what its
   * prefix answers at once.
   */
  lemma {:induction false} IncrementalEqualsWhole<F>(m: Model<F>, limits: Limits, prompt: seq<nat>, text: seq<nat>)
    requires ModelValid(m) && Tokens(m, [])
    ensures var answers := Outcomes(m, limits, [], OneByOne(prompt, text));
      && (NoneRefused(answers) <==> |prompt| <= limits.prefill && PrefixesAnswered(m, limits.context, prompt, text))
      && (NoneRefused(answers) ==>
            && prompt != []
            && AfterAll(m, limits, [], OneByOne(prompt, text)) == prompt + text
            && forall k :: 0 <= k <= |text| ==> answers[k] == Whole(m, limits.context, prompt + text[..k]))
    decreases |text|
  {
    hide ModelValid, Tokens, After, Outcome, Whole, OneByOne, PrefixesAnswered;
    if text == [] {
      PrefillIsWhole(m, limits, prompt);
      OneByOneNil(prompt);
      AfterSnoc(m, limits, [], [], Prefill(prompt));
      PrefixesNil(m, limits.context, prompt);
      RefusalsSnoc([], Outcome(m, limits, [], Prefill(prompt)));
      assert prompt + text[..0] == prompt == prompt + text;
    } else {
      var init, last := text[..|text| - 1], text[|text| - 1];
      var earlier := Outcomes(m, limits, [], OneByOne(prompt, init));
      var answers := Outcomes(m, limits, [], OneByOne(prompt, text));
      IncrementalEqualsWhole(m, limits, prompt, init);
      PrefixesSnoc(m, limits.context, prompt, text);
      OneByOneSnoc(prompt, text);
      AfterSnoc(m, limits, [], OneByOne(prompt, init), Decode(last));
      assert forall k :: 0 <= k < |earlier| ==> answers[k] == earlier[k];
      assert prompt + init + [last] == prompt + text;
      assert forall k :: 0 <= k < |text| ==> init[..k] == text[..k];
      assert text[..|text|] == text;
      RefusalsSnoc(earlier, answers[|text|]);
      if NoneRefused(earlier) {
        DecodeIsWhole(m, limits, prompt + init, last);
        assert answers[|text|] == Whole(m, limits.context, prompt + text);
      }
    }
  }
}
