/**
 * `Spellchecker::check_file`: segment and merge the document's paragraphs, build one request
 * per paragraph, then turn the service's matches into located problems and count words.
 * The concurrent fan-out is not modelled: each paragraph's response is an input, and so is the
 * order in which the responses complete.
 */
module CheckFile {
  import opened Wrappers
  import opened Syntax
  import opened ParagraphText
  import opened Preprocessor
  import opened MergeShort
  import opened Problems
  import opened WordCount
  import opened Settings

  /** A failure reported by the LanguageTool client (transport, HTTP or decoding). */
  datatype ServiceError = ServiceError(message: string)

  /** The only error `check_file` returns. */
  datatype CheckError = LanguageTool(cause: ServiceError)

  datatype Level = Default | Picky

  /** The fields of a check request the spellchecker sets. */
  datatype CheckRequest = CheckRequest(
    text: string,
    language: string,
    level: Level,
    disabledRules: Option<seq<string>>,
    disabledCategories: Option<seq<string>>)

  /** What the service answered for one paragraph: its matches, or an error. */
  type Response = Result<seq<Match>, ServiceError>

  /** The request time is a clock reading and is not modelled. */
  datatype Metadata = Metadata(wordCount: nat, paragraphCount: nat)

  /** Paragraphs shorter than this many bytes are merged with the next. */
  const MinParagraphLength: nat := 512

  /** A paragraph's text and its contributions, as `get_text` returns them. */
  datatype Checked = Checked(text: string, contributions: seq<NodeContribution>)

  /** The request for one paragraph: picky exactly when the configuration says `Some(true)`. */
  function BuildRequest(text: string, config: LanguageToolConfig): (request: CheckRequest)
    ensures request.text == text && request.language == config.language
    ensures request.level == Picky <==> config.picky == Some(true)
    ensures request.disabledRules == config.disabledRules
    ensures request.disabledCategories == config.disabledCategories
  {
    CheckRequest(text, config.language, if config.picky.GetOr(false) then Picky else Default,
                 config.disabledRules, config.disabledCategories)
  }

  // ---------------------------------------------------------------------------------------------
  // Matches of one paragraph

  /** The match lies within the paragraph text (slicing outside it panics). */
  predicate MatchFits(text: string, m: Match) {
    m.offset + m.length <= |text|
  }

  predicate AllFit(text: string, matches: seq<Match>) {
    forall j | 0 <= j < |matches| :: MatchFits(text, matches[j])
  }

  function MatchText(text: string, m: Match): string
    requires MatchFits(text, m)
  {
    text[m.offset..m.offset + m.length]
  }

  /** Case-sensitive membership in the ignore list; nothing is ignored without a list. */
  predicate IsIgnored(ignoreWords: Option<seq<string>>, word: string) {
    ignoreWords.Some? && word in ignoreWords.value
  }

  /** `word` is a contiguous piece of `text`. */
  ghost predicate IsSliceOf(word: string, text: string) {
    exists a, b | 0 <= a <= b <= |text| :: word == text[a..b]
  }

  /**
   * The problems one paragraph's matches give, in match order: an ignored match text gives
   * none, a match that cannot be placed gives none.
   */
  function ParagraphProblems(source: Source, paragraph: Checked, matches: seq<Match>, ignoreWords: Option<seq<string>>): (ps: seq<Problem>)
    requires AllFit(paragraph.text, matches)
    ensures |ps| <= |matches|
    ensures forall i | 0 <= i < |ps| :: !IsIgnored(ignoreWords, ps[i].matchString)
    ensures forall i | 0 <= i < |ps| :: IsSliceOf(ps[i].matchString, paragraph.text)
    decreases |matches|
  {
    if matches == [] then []
    else
      var m := matches[|matches| - 1];
      var earlier := ParagraphProblems(source, paragraph, matches[..|matches| - 1], ignoreWords);
      var matchText := MatchText(paragraph.text, m);
      if IsIgnored(ignoreWords, matchText) then earlier
      else
        match TryFromMatch(source, m, matchText, paragraph.contributions)
        case None => earlier
        case Some(problem) => earlier + [problem]
  }

  /** One more match adds its placed problem exactly when it is kept. */
  lemma ParagraphProblemsStep(source: Source, paragraph: Checked, matches: seq<Match>, ignoreWords: Option<seq<string>>)
    requires AllFit(paragraph.text, matches) && matches != []
    ensures var last := matches[|matches| - 1];
      ParagraphProblems(source, paragraph, matches, ignoreWords)
      == ParagraphProblems(source, paragraph, matches[..|matches| - 1], ignoreWords)
         + if Keeps(source, paragraph, ignoreWords, last)
           then [TryFromMatch(source, last, MatchText(paragraph.text, last), paragraph.contributions).value]
           else []
  {
  }

  /** The same step, seen from the prefixes of a fixed match sequence. */
  lemma ParagraphProblemsPrefixStep(source: Source, paragraph: Checked, matches: seq<Match>,
                                    ignoreWords: Option<seq<string>>, j: nat)
    requires AllFit(paragraph.text, matches) && j < |matches|
    ensures var m := matches[j];
      ParagraphProblems(source, paragraph, matches[..j + 1], ignoreWords)
      == ParagraphProblems(source, paragraph, matches[..j], ignoreWords)
         + if Keeps(source, paragraph, ignoreWords, m)
           then [TryFromMatch(source, m, MatchText(paragraph.text, m), paragraph.contributions).value]
           else []
  {
    assert matches[..j + 1][..j] == matches[..j];
    ParagraphProblemsStep(source, paragraph, matches[..j + 1], ignoreWords);
  }

  /** A match is kept when its text is not ignored and it can be placed in the document. */
  predicate Keeps(source: Source, paragraph: Checked, ignoreWords: Option<seq<string>>, m: Match)
    requires MatchFits(paragraph.text, m)
  {
    !IsIgnored(ignoreWords, MatchText(paragraph.text, m))
    && MatchRange(source, m, paragraph.contributions).Some?
  }

  /** The indices of the kept matches, in increasing order. */
  function KeptIndices(source: Source, paragraph: Checked, matches: seq<Match>, ignoreWords: Option<seq<string>>): (js: seq<nat>)
    requires AllFit(paragraph.text, matches)
    ensures forall i | 0 <= i < |js| :: js[i] < |matches|
    ensures forall i, i' | 0 <= i < i' < |js| :: js[i] < js[i']
    ensures forall j | 0 <= j < |matches| :: j in js <==> Keeps(source, paragraph, ignoreWords, matches[j])
    decreases |matches|
  {
    if matches == [] then []
    else
      var init := matches[..|matches| - 1];
      var earlier := KeptIndices(source, paragraph, init, ignoreWords);
      assert forall j | 0 <= j < |init| :: init[j] == matches[j];
      if Keeps(source, paragraph, ignoreWords, matches[|matches| - 1]) then
        var js := earlier + [|matches| - 1];
        assert forall i | 0 <= i < |earlier| :: js[i] == earlier[i];
        assert |matches| - 1 !in earlier;
        js
      else
        assert |matches| - 1 !in earlier;
        earlier
  }

  /** One more match adds its index exactly when it is kept. */
  lemma KeptIndicesStep(source: Source, paragraph: Checked, matches: seq<Match>, ignoreWords: Option<seq<string>>)
    requires AllFit(paragraph.text, matches) && matches != []
    ensures KeptIndices(source, paragraph, matches, ignoreWords)
      == KeptIndices(source, paragraph, matches[..|matches| - 1], ignoreWords)
         + if Keeps(source, paragraph, ignoreWords, matches[|matches| - 1]) then [|matches| - 1] else []
  {
  }

  /**
   * Problem `i` is the placed form of the `i`-th kept match, with that match's own slice of the
   * paragraph text as its match string; every kept match gives its problem and no other does.
   */
  lemma {:induction false} ProblemsOfKeptMatches(source: Source, paragraph: Checked, matches: seq<Match>,
                                                 ignoreWords: Option<seq<string>>)
    requires AllFit(paragraph.text, matches)
    ensures var ps := ParagraphProblems(source, paragraph, matches, ignoreWords);
      var js := KeptIndices(source, paragraph, matches, ignoreWords);
      |ps| == |js|
      && forall i | 0 <= i < |ps| ::
        var m := matches[js[i]];
        ps[i] == TryFromMatch(source, m, MatchText(paragraph.text, m), paragraph.contributions).value
        && ps[i].matchString == MatchText(paragraph.text, m)
  {
    var ps := ParagraphProblems(source, paragraph, matches, ignoreWords);
    KeptCount(source, paragraph, matches, ignoreWords);
    forall i | 0 <= i < |ps| {
      ProblemOfKeptMatch(source, paragraph, matches, ignoreWords, i);
    }
  }

  /** There are as many problems as kept matches. */
  lemma {:induction false} KeptCount(source: Source, paragraph: Checked, matches: seq<Match>,
                                     ignoreWords: Option<seq<string>>)
    requires AllFit(paragraph.text, matches)
    ensures |ParagraphProblems(source, paragraph, matches, ignoreWords)|
      == |KeptIndices(source, paragraph, matches, ignoreWords)|
    decreases |matches|
  {
    if matches != [] {
      KeptCount(source, paragraph, matches[..|matches| - 1], ignoreWords);
      ParagraphProblemsStep(source, paragraph, matches, ignoreWords);
      KeptIndicesStep(source, paragraph, matches, ignoreWords);
    }
  }

  /** Problem `i` is the placed form of the `i`-th kept match. */
  lemma {:induction false} ProblemOfKeptMatch(source: Source, paragraph: Checked, matches: seq<Match>,
                                              ignoreWords: Option<seq<string>>, i: nat)
    requires AllFit(paragraph.text, matches)
    requires i < |ParagraphProblems(source, paragraph, matches, ignoreWords)|
    ensures var ps := ParagraphProblems(source, paragraph, matches, ignoreWords);
      var js := KeptIndices(source, paragraph, matches, ignoreWords);
      i < |js|
      && var m := matches[js[i]];
      ps[i] == TryFromMatch(source, m, MatchText(paragraph.text, m), paragraph.contributions).value
      && ps[i].matchString == MatchText(paragraph.text, m)
    decreases |matches|
  {
    var init := matches[..|matches| - 1];
    var last := matches[|matches| - 1];
    var ps0 := ParagraphProblems(source, paragraph, init, ignoreWords);
    var js0 := KeptIndices(source, paragraph, init, ignoreWords);
    var ps := ParagraphProblems(source, paragraph, matches, ignoreWords);
    var js := KeptIndices(source, paragraph, matches, ignoreWords);
    KeptCount(source, paragraph, init, ignoreWords);
    ParagraphProblemsStep(source, paragraph, matches, ignoreWords);
    KeptIndicesStep(source, paragraph, matches, ignoreWords);
    if i < |ps0| {
      ProblemOfKeptMatch(source, paragraph, init, ignoreWords, i);
      assert ps[i] == ps0[i] && js[i] == js0[i];
      assert init[js0[i]] == matches[js0[i]];
    } else {
      var text := MatchText(paragraph.text, last);
      assert Keeps(source, paragraph, ignoreWords, last);
      assert ps == ps0 + [TryFromMatch(source, last, text, paragraph.contributions).value];
      assert js == js0 + [|matches| - 1];
    }
  }

  /** When every match is kept, the kept indices are all of them, in order. */
  lemma {:induction false} AllKept(source: Source, paragraph: Checked, matches: seq<Match>, ignoreWords: Option<seq<string>>)
    requires AllFit(paragraph.text, matches)
    requires forall j | 0 <= j < |matches| :: Keeps(source, paragraph, ignoreWords, matches[j])
    ensures var js := KeptIndices(source, paragraph, matches, ignoreWords);
      |js| == |matches| && forall i | 0 <= i < |js| :: js[i] == i
    decreases |matches|
  {
    if matches != [] {
      var init := matches[..|matches| - 1];
      var last := matches[|matches| - 1];
      assert forall j | 0 <= j < |init| :: init[j] == matches[j];
      AllKept(source, paragraph, init, ignoreWords);
      KeptIndicesStep(source, paragraph, matches, ignoreWords);
      assert Keeps(source, paragraph, ignoreWords, last);
    }
  }

  /** Without an ignore list and with every match placeable, there is one problem per match, in order. */
  lemma {:induction false} NothingFilteredWithoutIgnoreList(source: Source, paragraph: Checked, matches: seq<Match>)
    requires AllFit(paragraph.text, matches)
    requires forall j | 0 <= j < |matches| ::
      TryFromMatch(source, matches[j], MatchText(paragraph.text, matches[j]), paragraph.contributions).Some?
    ensures var ps := ParagraphProblems(source, paragraph, matches, None);
      |ps| == |matches|
      && forall j | 0 <= j < |matches| :: ps[j].matchString == MatchText(paragraph.text, matches[j])
  {
    AllKept(source, paragraph, matches, None);
    ProblemsOfKeptMatches(source, paragraph, matches, None);
  }

  // ---------------------------------------------------------------------------------------------
  // Gathering the responses in completion order

  predicate Indexes(order: seq<nat>, n: nat) {
    forall i | 0 <= i < |order| :: order[i] < n
  }

  /** Every successful response's matches lie within its paragraph's text. */
  predicate ResponsesFit(items: seq<Checked>, responses: seq<Response>) {
    |items| == |responses|
    && forall k | 0 <= k < |responses| :: responses[k].Success? ==> AllFit(items[k].text, responses[k].value)
  }

  /**
   * The loop over completed responses: the problems of each paragraph in completion order,
   * stopping at the first failed response.
   */
  function Gathered(source: Source, items: seq<Checked>, responses: seq<Response>, order: seq<nat>,
                    ignoreWords: Option<seq<string>>): Result<seq<Problem>, CheckError>
    requires ResponsesFit(items, responses) && Indexes(order, |responses|)
    decreases |order|
  {
    if order == [] then Success([])
    else
      match Gathered(source, items, responses, order[..|order| - 1], ignoreWords)
      case Failure(e) => Failure(e)
      case Success(problems) =>
        var k := order[|order| - 1];
        match responses[k]
        case Failure(e) => Failure(LanguageTool(e))
        case Success(matches) => Success(problems + ParagraphProblems(source, items[k], matches, ignoreWords))
  }

  /** The `while let` loop over completed responses; it returns at the first failure. */
  method ProcessResponses(source: Source, items: seq<Checked>, responses: seq<Response>, order: seq<nat>,
                          ignoreWords: Option<seq<string>>) returns (r: Result<seq<Problem>, CheckError>)
    requires ResponsesFit(items, responses) && Indexes(order, |responses|)
    ensures r == Gathered(source, items, responses, order, ignoreWords)
  {
    var problems := [];
    for i := 0 to |order|
      invariant Gathered(source, items, responses, order[..i], ignoreWords) == Success(problems)
    {
      assert order[..i + 1][..i] == order[..i];
      var k := order[i];
      var result := responses[k];
      if result.Failure? {
        r := Failure(LanguageTool(result.error));
        FailureIsFinal(source, items, responses, order, ignoreWords, i + 1);
        return;
      }
      var found := ProcessMatches(source, items[k], result.value, ignoreWords);
      problems := problems + found;
    }
    assert order[..|order|] == order;
    r := Success(problems);
  }

  /** The inner loop over one response's matches: slice, filter ignored words, place. */
  method ProcessMatches(source: Source, paragraph: Checked, response: seq<Match>, ignoreWords: Option<seq<string>>)
    returns (problems: seq<Problem>)
    requires AllFit(paragraph.text, response)
    ensures problems == ParagraphProblems(source, paragraph, response, ignoreWords)
  {
    problems := [];
    for j := 0 to |response|
      invariant problems == ParagraphProblems(source, paragraph, response[..j], ignoreWords)
    {
      ParagraphProblemsPrefixStep(source, paragraph, response, ignoreWords, j);
      var found := ProcessMatch(source, paragraph, response[j], ignoreWords);
      problems := problems + found;
    }
    assert response[..|response|] == response;
  }

  /** The body of that loop for one match: nothing when its text is ignored or it cannot be placed. */
  method ProcessMatch(source: Source, paragraph: Checked, ltMatch: Match, ignoreWords: Option<seq<string>>)
    returns (found: seq<Problem>)
    requires MatchFits(paragraph.text, ltMatch)
    ensures found == if Keeps(source, paragraph, ignoreWords, ltMatch)
      then [TryFromMatch(source, ltMatch, MatchText(paragraph.text, ltMatch), paragraph.contributions).value]
      else []
  {
    var text := paragraph.text;
    var nodeContributions := paragraph.contributions;
    var matchText := text[ltMatch.offset..ltMatch.offset + ltMatch.length];
    if ignoreWords.Some? && matchText in ignoreWords.value {
      return [];
    }
    var maybeProblem := TryFromMatch(source, ltMatch, matchText, nodeContributions);
    match maybeProblem {
      case Some(problem) => found := [problem];
      case None => found := [];
    }
  }

  /** Once a prefix of the completion order has failed, every longer prefix fails the same way. */
  lemma {:induction false} FailureIsFinal(source: Source, items: seq<Checked>, responses: seq<Response>, order: seq<nat>,
                                          ignoreWords: Option<seq<string>>, i: nat)
    requires ResponsesFit(items, responses) && Indexes(order, |responses|)
    requires 0 < i <= |order|
    requires Gathered(source, items, responses, order[..i], ignoreWords).Failure?
    ensures Gathered(source, items, responses, order, ignoreWords)
      == Gathered(source, items, responses, order[..i], ignoreWords)
    decreases |order| - i
  {
    if i < |order| {
      assert order[..i + 1][..i] == order[..i];
      FailureIsFinal(source, items, responses, order, ignoreWords, i + 1);
    } else {
      assert order[..i] == order;
    }
  }

  /**
   * The gathering fails exactly when some response in the order failed, and then with the error
   * of the first one to complete.
   */
  lemma {:induction false} GatheredFails(source: Source, items: seq<Checked>, responses: seq<Response>, order: seq<nat>,
                                         ignoreWords: Option<seq<string>>)
    requires ResponsesFit(items, responses) && Indexes(order, |responses|)
    ensures var r := Gathered(source, items, responses, order, ignoreWords);
      r.Failure? <==> exists i | 0 <= i < |order| :: responses[order[i]].Failure?
    ensures var r := Gathered(source, items, responses, order, ignoreWords);
      r.Failure? ==> exists i | 0 <= i < |order| ::
        responses[order[i]] == Failure(r.error.cause) && forall j | 0 <= j < i :: responses[order[j]].Success?
    decreases |order|
  {
    if order != [] {
      var init := order[..|order| - 1];
      GatheredFails(source, items, responses, init, ignoreWords);
      assert forall i | 0 <= i < |init| :: init[i] == order[i];
    }
  }

  /** The problems of the paragraphs in `order`, one after the other. */
  function ConcatOver<T>(parts: seq<seq<T>>, order: seq<nat>): seq<T>
    requires Indexes(order, |parts|)
    decreases |order|
  {
    if order == [] then [] else ConcatOver(parts, order[..|order| - 1]) + parts[order[|order| - 1]]
  }

  /** Each paragraph's problems (none for a failed response). */
  function PerParagraph(source: Source, items: seq<Checked>, responses: seq<Response>,
                        ignoreWords: Option<seq<string>>): (parts: seq<seq<Problem>>)
    requires ResponsesFit(items, responses)
    ensures |parts| == |responses|
  {
    seq(|responses|, k requires 0 <= k < |responses| =>
      if responses[k].Success? then ParagraphProblems(source, items[k], responses[k].value, ignoreWords) else [])
  }

  /** On success, the result is every paragraph's problems in completion order. */
  lemma {:induction false} GatheredIsConcat(source: Source, items: seq<Checked>, responses: seq<Response>, order: seq<nat>,
                                            ignoreWords: Option<seq<string>>)
    requires ResponsesFit(items, responses) && Indexes(order, |responses|)
    ensures var r := Gathered(source, items, responses, order, ignoreWords);
      r.Success? ==> r.value == ConcatOver(PerParagraph(source, items, responses, ignoreWords), order)
    decreases |order|
  {
    if order != [] {
      GatheredIsConcat(source, items, responses, order[..|order| - 1], ignoreWords);
    }
  }

  lemma {:induction false} ConcatOverAppend<T>(parts: seq<seq<T>>, a: seq<nat>, b: seq<nat>)
    requires Indexes(a, |parts|) && Indexes(b, |parts|)
    ensures Indexes(a + b, |parts|)
    ensures ConcatOver(parts, a + b) == ConcatOver(parts, a) + ConcatOver(parts, b)
    decreases |b|
  {
    if b == [] {
      assert a + b == a;
    } else {
      var b' := b[..|b| - 1];
      ConcatOverAppend(parts, a, b');
      assert (a + b)[..|a + b| - 1] == a + b';
    }
  }

  lemma MultisetWithout(o: seq<nat>, j: nat)
    requires j < |o|
    ensures multiset(o[..j] + o[j + 1..]) == multiset(o) - multiset{o[j]}
  {
    assert o == o[..j] + [o[j]] + o[j + 1..];
  }

  /** Taking one paragraph out of the middle of an order. */
  lemma ConcatOverSplit<T>(parts: seq<seq<T>>, o: seq<nat>, j: nat)
    requires Indexes(o, |parts|) && j < |o|
    ensures Indexes(o[..j] + o[j + 1..], |parts|)
    ensures ConcatOver(parts, o) == ConcatOver(parts, o[..j]) + parts[o[j]] + ConcatOver(parts, o[j + 1..])
    ensures ConcatOver(parts, o[..j] + o[j + 1..]) == ConcatOver(parts, o[..j]) + ConcatOver(parts, o[j + 1..])
  {
    var x := o[j];
    assert o == o[..j] + [x] + o[j + 1..];
    ConcatOverAppend(parts, o[..j], [x]);
    ConcatOverAppend(parts, o[..j] + [x], o[j + 1..]);
    ConcatOverAppend(parts, o[..j], o[j + 1..]);
    assert ConcatOver(parts, [x]) == parts[x] by {
      assert [x][..0] == [];
    }
  }

  /** Reordering the paragraphs reorders the problems and changes nothing else. */
  lemma {:induction false} ConcatOverPermutation<T>(parts: seq<seq<T>>, o1: seq<nat>, o2: seq<nat>)
    requires Indexes(o1, |parts|) && Indexes(o2, |parts|)
    requires multiset(o1) == multiset(o2)
    ensures multiset(ConcatOver(parts, o1)) == multiset(ConcatOver(parts, o2))
    decreases |o1|
  {
    if o1 == [] {
      assert |multiset(o2)| == 0;
    } else {
      var init := o1[..|o1| - 1];
      var x := o1[|o1| - 1];
      MultisetWithout(o1, |o1| - 1);
      assert o1[|o1| - 1 + 1..] == [];
      assert init + [] == init;
      assert x in multiset(o2);
      var j :| 0 <= j < |o2| && o2[j] == x;
      MultisetWithout(o2, j);
      var rest := o2[..j] + o2[j + 1..];
      ConcatOverSplit(parts, o2, j);
      ConcatOverPermutation(parts, init, rest);
    }
  }

  /** A completion order: every paragraph's response exactly once, in some order. */
  predicate IsCompletionOrder(order: seq<nat>, n: nat) {
    Indexes(order, n) && multiset(order) == multiset(seq(n, i requires 0 <= i < n => i as nat))
  }

  lemma CompletionOrderIndexes(order: seq<nat>, n: nat)
    requires IsCompletionOrder(order, n)
    ensures forall k | 0 <= k < n :: k in order
  {
    var all := seq(n, i requires 0 <= i < n => i as nat);
    forall k | 0 <= k < n ensures k in order {
      assert all[k] == k;
      assert k in multiset(order);
    }
  }

  /** Over a completion order, the gathering fails exactly when some paragraph's response failed. */
  lemma CompletionFails(source: Source, items: seq<Checked>, responses: seq<Response>, order: seq<nat>,
                        ignoreWords: Option<seq<string>>)
    requires ResponsesFit(items, responses) && IsCompletionOrder(order, |responses|)
    ensures Gathered(source, items, responses, order, ignoreWords).Failure?
      <==> exists k | 0 <= k < |responses| :: responses[k].Failure?
  {
    CompletionOrderIndexes(order, |responses|);
    GatheredFails(source, items, responses, order, ignoreWords);
    if exists k | 0 <= k < |responses| :: responses[k].Failure? {
      var k :| 0 <= k < |responses| && responses[k].Failure?;
      assert k in order;
    }
  }

  /**
   * The completion order does not matter: whether the gathering fails, and on success the
   * problems found (as a multiset), are the same for every completion order.
   */
  lemma OrderIndependent(source: Source, items: seq<Checked>, responses: seq<Response>, o1: seq<nat>, o2: seq<nat>,
                         ignoreWords: Option<seq<string>>)
    requires ResponsesFit(items, responses)
    requires IsCompletionOrder(o1, |responses|) && IsCompletionOrder(o2, |responses|)
    ensures Gathered(source, items, responses, o1, ignoreWords).Failure?
      <==> Gathered(source, items, responses, o2, ignoreWords).Failure?
    ensures var r1 := Gathered(source, items, responses, o1, ignoreWords);
      var r2 := Gathered(source, items, responses, o2, ignoreWords);
      r1.Success? ==> multiset(r1.value) == multiset(r2.value)
  {
    CompletionFails(source, items, responses, o1, ignoreWords);
    CompletionFails(source, items, responses, o2, ignoreWords);
    var parts := PerParagraph(source, items, responses, ignoreWords);
    GatheredIsConcat(source, items, responses, o1, ignoreWords);
    GatheredIsConcat(source, items, responses, o2, ignoreWords);
    ConcatOverPermutation(parts, o1, o2);
  }

  /** Fewer problems than matches: every match gives at most one problem. */
  lemma {:induction false} ProblemsBounded(source: Source, items: seq<Checked>, responses: seq<Response>, order: seq<nat>,
                                           ignoreWords: Option<seq<string>>)
    requires ResponsesFit(items, responses) && Indexes(order, |responses|)
    ensures var r := Gathered(source, items, responses, order, ignoreWords);
      r.Success? ==> (|r.value| <= MatchCount(responses, order)
                      && forall i | 0 <= i < |r.value| :: !IsIgnored(ignoreWords, r.value[i].matchString))
    decreases |order|
  {
    if order != [] {
      ProblemsBounded(source, items, responses, order[..|order| - 1], ignoreWords);
    }
  }

  /** The number of matches of the successful responses in `order`. */
  function MatchCount(responses: seq<Response>, order: seq<nat>): nat
    requires Indexes(order, |responses|)
    decreases |order|
  {
    if order == [] then 0
    else
      var k := order[|order| - 1];
      MatchCount(responses, order[..|order| - 1]) + (if responses[k].Success? then |responses[k].value| else 0)
  }

  // ---------------------------------------------------------------------------------------------
  // The whole check

  /** The paragraphs that are checked. */
  function CheckedParagraphs(root: SyntaxNode): seq<Paragraph> {
    Merged(Segment(root), MinParagraphLength)
  }

  function Items(paragraphs: seq<Paragraph>): (items: seq<Checked>)
    ensures |items| == |paragraphs|
  {
    seq(|paragraphs|, k requires 0 <= k < |paragraphs| =>
      Checked(TextOf(paragraphs[k].nodes), Contributions(paragraphs[k].nodes)))
  }

  function Texts(paragraphs: seq<Paragraph>): (texts: seq<string>)
    ensures |texts| == |paragraphs|
  {
    seq(|paragraphs|, k requires 0 <= k < |paragraphs| => TextOf(paragraphs[k].nodes))
  }

  /**
   * `check_file` after parsing: one request per merged paragraph; the problems of the responses
   * taken in completion order, or the first failure; the word count of the paragraph texts
   * joined by spaces and the number of paragraphs.
   */
  method CheckFile(root: SyntaxNode, source: Source, config: LanguageToolConfig, spellcheckConfig: SpellcheckConfig,
                   responses: seq<Response>, order: seq<nat>)
    returns (requests: seq<CheckRequest>, r: Result<(seq<Problem>, Metadata), CheckError>)
    requires ResponsesFit(Items(CheckedParagraphs(root)), responses)
    requires IsCompletionOrder(order, |responses|)
    ensures |requests| == |CheckedParagraphs(root)|
    ensures forall k | 0 <= k < |requests| :: requests[k] == BuildRequest(TextOf(CheckedParagraphs(root)[k].nodes), config)
    ensures r.Failure? <==> exists k | 0 <= k < |responses| :: responses[k].Failure?
    ensures r.Failure? ==>
      Gathered(source, Items(CheckedParagraphs(root)), responses, order, spellcheckConfig.ignoreWords) == Failure(r.error)
    ensures r.Success? ==>
      && Gathered(source, Items(CheckedParagraphs(root)), responses, order, spellcheckConfig.ignoreWords) == Success(r.value.0)
      && r.value.1.paragraphCount == |CheckedParagraphs(root)|
      && r.value.1.wordCount == SumWords(Texts(CheckedParagraphs(root)))
  {
    var segmented := Preprocess(root);
    var paragraphs := MergeShortParagraphs(segmented, MinParagraphLength);

    var items := Items(paragraphs);
    requests := seq(|paragraphs|, k requires 0 <= k < |paragraphs| => BuildRequest(TextOf(paragraphs[k].nodes), config));

    CompletionFails(source, items, responses, order, spellcheckConfig.ignoreWords);
    var problems := ProcessResponses(source, items, responses, order, spellcheckConfig.ignoreWords);
    if problems.Failure? {
      return requests, Failure(problems.error);
    }

    var texts := Texts(paragraphs);
    var wordCount := CountWordsNaive(JoinWithSpaces(texts));
    JoinedWordsAreSum(texts);
    var metadata := Metadata(wordCount, |paragraphs|);
    r := Success((problems.value, metadata));
  }
}
