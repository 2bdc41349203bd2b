/**
 * The match engine: for each required text of a specification entry, the
 * first design text, in flattening order, that equals it ignoring case,
 * contains it, or is contained in it; then the implementation rate, the
 * status, and the split of all entries into matches and issues. These
 * functions specify the methods of DesignChecker.
 */
module MatchEngine {
  import opened Wrappers
  import opened JsonValue
  import opened Text
  import opened Elements
  import opened Seqs

  datatype MatchType = ExactMatch | PartialMatch

  datatype Status = Complete | Partial | Missing

  /** One entry of `found_texts`. */
  datatype FoundText = FoundText(required: string, found: string, matchType: MatchType)

  /** The dict `check_text_implementation` returns. */
  datatype CheckResult = CheckResult(
    specId: Json,
    specName: Json,
    requiredTexts: seq<string>,
    foundTexts: seq<FoundText>,
    missingTexts: seq<string>,
    implementationRate: real,
    status: Status)

  /** `[elem.text_content for elem in design_elements]` */
  function Corpus(elements: seq<DesignElement>): seq<string> {
    seq(|elements|, i requires 0 <= i < |elements| => elements[i].textContent)
  }

  /** The test on line 131-133: equal, or one inside the other, after lower-casing both. */
  predicate TextsMatch(required: string, design: string) {
    Lower(required) == Lower(design) || Contains(Lower(design), Lower(required)) || Contains(Lower(required), Lower(design))
  }

  /** Since equal strings contain each other, the test is containment in either direction. */
  lemma TextsMatchIsContainment(required: string, design: string)
    ensures TextsMatch(required, design) <==>
              Contains(Lower(design), Lower(required)) || Contains(Lower(required), Lower(design))
  {
    ContainsFacts(Lower(design), Lower(required));
  }

  /** The position of the first design text, at or after `from`, that matches `required`. */
  function FindFrom(required: string, corpus: seq<string>, from: nat): (r: Option<nat>)
    requires from <= |corpus|
    ensures r.Some? ==> from <= r.value < |corpus| && TextsMatch(required, corpus[r.value])
                          && forall j :: from <= j < r.value ==> !TextsMatch(required, corpus[j])
    ensures r.None? <==> forall j :: from <= j < |corpus| ==> !TextsMatch(required, corpus[j])
    decreases |corpus| - from
  {
    if from == |corpus| then None
    else if TextsMatch(required, corpus[from]) then Some(from)
    else FindFrom(required, corpus, from + 1)
  }

  /** The position of the first design text that matches `required`. */
  function FirstMatch(required: string, corpus: seq<string>): Option<nat> {
    FindFrom(required, corpus, 0)
  }

  /**
   * The `found_texts` entry for `required`, if some design text matches it:
   * the first matching design text, whose match is exact exactly when the
   * two are equal ignoring case.
   */
  function FoundFor(required: string, corpus: seq<string>): (r: Option<FoundText>)
    ensures r.None? <==> forall j :: 0 <= j < |corpus| ==> !TextsMatch(required, corpus[j])
    ensures r.Some? ==>
              && r.value.required == required
              && (exists i :: 0 <= i < |corpus| && corpus[i] == r.value.found && TextsMatch(required, corpus[i])
                    && forall j :: 0 <= j < i ==> !TextsMatch(required, corpus[j]))
              && (r.value.matchType == ExactMatch <==> Lower(required) == Lower(r.value.found))
  {
    match FirstMatch(required, corpus)
    case None => None
    case Some(i) =>
      var design := corpus[i];
      Some(FoundText(required, design, if Lower(required) == Lower(design) then ExactMatch else PartialMatch))
  }

  /** `found_texts` after the loop has gone through `required`. */
  function FoundTexts(required: seq<string>, corpus: seq<string>): seq<FoundText> {
    if required == [] then []
    else
      var r := required[|required| - 1];
      FoundTexts(required[..|required| - 1], corpus)
      + (match FoundFor(r, corpus) case Some(f) => [f] case None => [])
  }

  /** `missing_texts` after the loop has gone through `required`. */
  function MissingTexts(required: seq<string>, corpus: seq<string>): seq<string> {
    if required == [] then []
    else
      var r := required[|required| - 1];
      MissingTexts(required[..|required| - 1], corpus)
      + (if FoundFor(r, corpus).None? then [r] else [])
  }

  /** One more required text, as the loop of `check_text_implementation` takes it. */
  lemma TextsStep(required: seq<string>, i: nat, corpus: seq<string>)
    requires i < |required|
    ensures FoundTexts(required[..i + 1], corpus)
            == FoundTexts(required[..i], corpus) + (match FoundFor(required[i], corpus) case Some(f) => [f] case None => [])
    ensures MissingTexts(required[..i + 1], corpus)
            == MissingTexts(required[..i], corpus) + (if FoundFor(required[i], corpus).None? then [required[i]] else [])
  {
    var front := required[..i + 1];
    assert front[..i] == required[..i] && front[i] == required[i];
  }

  /** `len(found_texts) / len(required_texts) if required_texts else 0`, exactly. */
  function ImplementationRate(found: nat, total: nat): real {
    if total == 0 then 0.0 else found as real / total as real
  }

  /** `'complete' if rate == 1.0 else 'partial' if rate > 0 else 'missing'` */
  function StatusOf(rate: real): Status {
    if rate == 1.0 then Complete else if rate > 0.0 then Partial else Missing
  }

  /**
   * The status in counts: complete when every one of at least one required
   * text is found, partial when some but not all are, missing when none is
   * found — so an entry without required texts is missing.
   */
  lemma StatusByCounts(found: nat, total: nat)
    requires found <= total
    ensures StatusOf(ImplementationRate(found, total)) == Complete <==> total > 0 && found == total
    ensures StatusOf(ImplementationRate(found, total)) == Partial <==> 0 < found < total
    ensures StatusOf(ImplementationRate(found, total)) == Missing <==> found == 0
  {
    if total > 0 {
      var rate := found as real / total as real;
      assert rate * total as real == found as real;
      if found == total {
        assert rate == 1.0;
      } else {
        assert rate != 1.0;
      }
      assert (rate > 0.0) <==> (found > 0);
    }
  }

  /** `check_text_implementation` */
  function Check(spec: SpecificationElement, elements: seq<DesignElement>): CheckResult {
    var corpus := Corpus(elements);
    var found := FoundTexts(spec.designTexts, corpus);
    var rate := ImplementationRate(|found|, |spec.designTexts|);
    CheckResult(spec.id, spec.name, spec.designTexts, found, MissingTexts(spec.designTexts, corpus), rate, StatusOf(rate))
  }

  /** The required texts of the found entries, in order. */
  function Requireds(found: seq<FoundText>): seq<string> {
    seq(|found|, k requires 0 <= k < |found| => found[k].required)
  }

  /** Each required text lands in exactly one of `found_texts` and `missing_texts`, so the lengths add up. */
  lemma {:induction false} FoundPlusMissingIsRequired(required: seq<string>, corpus: seq<string>)
    ensures |FoundTexts(required, corpus)| + |MissingTexts(required, corpus)| == |required|
  {
    if required != [] {
      FoundPlusMissingIsRequired(required[..|required| - 1], corpus);
    }
  }

  /** `found_texts` keeps the order of `required_texts`. */
  lemma {:induction false} FoundKeepsOrder(required: seq<string>, corpus: seq<string>)
    ensures IsSubsequence(Requireds(FoundTexts(required, corpus)), required)
  {
    if required != [] {
      var n := |required|;
      var pre := required[..n - 1];
      var found := FoundTexts(pre, corpus);
      FoundKeepsOrder(pre, corpus);
      SubsequenceSnoc(Requireds(found), required);
      var o := FoundFor(required[n - 1], corpus);
      if o.Some? {
        assert FoundTexts(required, corpus) == found + [o.value];
        RequiredsSnoc(found, o.value);
      } else {
        assert FoundTexts(required, corpus) == found;
      }
    }
  }

  lemma RequiredsSnoc(found: seq<FoundText>, f: FoundText)
    ensures Requireds(found + [f]) == Requireds(found) + [f.required]
  {
    assert forall k :: 0 <= k < |found| ==> (found + [f])[k] == found[k];
  }

  /** `missing_texts` keeps the order of `required_texts`. */
  lemma {:induction false} MissingKeepsOrder(required: seq<string>, corpus: seq<string>)
    ensures IsSubsequence(MissingTexts(required, corpus), required)
  {
    if required != [] {
      var n := |required|;
      var pre := required[..n - 1];
      var r := required[n - 1];
      var missing := MissingTexts(pre, corpus);
      MissingKeepsOrder(pre, corpus);
      SubsequenceSnoc(missing, required);
      if FoundFor(r, corpus).None? {
        assert MissingTexts(required, corpus) == missing + [r];
      } else {
        assert MissingTexts(required, corpus) == missing;
      }
    }
  }

  /** A required text is missing exactly when no design text matches it. */
  lemma {:induction false} MissingIffUnmatched(required: seq<string>, corpus: seq<string>)
    ensures forall r :: r in MissingTexts(required, corpus) <==> r in required && FoundFor(r, corpus).None?
  {
    if required != [] {
      var n := |required|;
      assert required == required[..n - 1] + [required[n - 1]];
      MissingIffUnmatched(required[..n - 1], corpus);
    }
  }

  /** The found entries are exactly the FoundFor entries of the required texts that have one. */
  lemma {:induction false} FoundIffMatched(required: seq<string>, corpus: seq<string>)
    ensures forall f :: f in FoundTexts(required, corpus) <==>
              f.required in required && FoundFor(f.required, corpus) == Some(f)
  {
    if required != [] {
      var n := |required|;
      assert required == required[..n - 1] + [required[n - 1]];
      FoundIffMatched(required[..n - 1], corpus);
    }
  }

  /** With no design text at all, every required text is missing. */
  lemma {:induction false} EmptyCorpusAllMissing(required: seq<string>)
    ensures FoundTexts(required, []) == []
    ensures MissingTexts(required, []) == required
  {
    if required != [] {
      EmptyCorpusAllMissing(required[..|required| - 1]);
      assert required[..|required| - 1] + [required[|required| - 1]] == required;
    }
  }

  /**
   * The result for one entry: found and missing texts split the required
   * texts, and the status follows the counts.
   */
  lemma CheckResultSpec(spec: SpecificationElement, elements: seq<DesignElement>)
    ensures var c := Check(spec, elements);
            && c.specId == spec.id && c.specName == spec.name && c.requiredTexts == spec.designTexts
            && |c.foundTexts| + |c.missingTexts| == |c.requiredTexts|
            && (c.status == Complete <==> |c.requiredTexts| > 0 && |c.missingTexts| == 0)
            && (c.status == Partial <==> |c.foundTexts| > 0 && |c.missingTexts| > 0)
            && (c.status == Missing <==> |c.foundTexts| == 0)
  {
    var corpus := Corpus(elements);
    FoundPlusMissingIsRequired(spec.designTexts, corpus);
    StatusByCounts(|FoundTexts(spec.designTexts, corpus)|, |spec.designTexts|);
  }

  // ---------------------------------------------------------------------
  // compare_elements
  // ---------------------------------------------------------------------

  /** `matches` after the loop has gone through `specs`: the complete and partial results. */
  function MatchesOf(specs: seq<SpecificationElement>, elements: seq<DesignElement>): seq<CheckResult> {
    if specs == [] then []
    else
      var c := Check(specs[|specs| - 1], elements);
      MatchesOf(specs[..|specs| - 1], elements) + (if c.status == Complete || c.status == Partial then [c] else [])
  }

  /** `issues` after the loop has gone through `specs`: the missing results. */
  function IssuesOf(specs: seq<SpecificationElement>, elements: seq<DesignElement>): seq<CheckResult> {
    if specs == [] then []
    else
      var c := Check(specs[|specs| - 1], elements);
      IssuesOf(specs[..|specs| - 1], elements) + (if c.status == Complete || c.status == Partial then [] else [c])
  }

  /** The result for every entry, in specification order. */
  function Results(specs: seq<SpecificationElement>, elements: seq<DesignElement>): seq<CheckResult> {
    seq(|specs|, i requires 0 <= i < |specs| => Check(specs[i], elements))
  }

  /** Every result lands in exactly one of `matches` and `issues`. */
  lemma {:induction false} MatchesPlusIssuesIsSpecs(specs: seq<SpecificationElement>, elements: seq<DesignElement>)
    ensures |MatchesOf(specs, elements)| + |IssuesOf(specs, elements)| == |specs|
  {
    if specs != [] {
      MatchesPlusIssuesIsSpecs(specs[..|specs| - 1], elements);
    }
  }

  lemma ResultsSnoc(specs: seq<SpecificationElement>, elements: seq<DesignElement>)
    requires specs != []
    ensures Results(specs, elements) == Results(specs[..|specs| - 1], elements) + [Check(specs[|specs| - 1], elements)]
  {
  }

  /** `matches` keeps the order of the specification. */
  lemma {:induction false} MatchesKeepOrder(specs: seq<SpecificationElement>, elements: seq<DesignElement>)
    ensures IsSubsequence(MatchesOf(specs, elements), Results(specs, elements))
  {
    if specs != [] {
      var n := |specs|;
      var pre := specs[..n - 1];
      var c := Check(specs[n - 1], elements);
      var sofar := MatchesOf(pre, elements);
      MatchesKeepOrder(pre, elements);
      ResultsSnoc(specs, elements);
      var results := Results(specs, elements);
      assert results[..n - 1] == Results(pre, elements) && results[n - 1] == c;
      SubsequenceSnoc(sofar, results);
      var all := MatchesOf(specs, elements);
      assert all == sofar + [c] || all == sofar;
    }
  }

  /** `issues` keeps the order of the specification. */
  lemma {:induction false} IssuesKeepOrder(specs: seq<SpecificationElement>, elements: seq<DesignElement>)
    ensures IsSubsequence(IssuesOf(specs, elements), Results(specs, elements))
  {
    if specs != [] {
      var n := |specs|;
      var pre := specs[..n - 1];
      var c := Check(specs[n - 1], elements);
      var sofar := IssuesOf(pre, elements);
      IssuesKeepOrder(pre, elements);
      ResultsSnoc(specs, elements);
      var results := Results(specs, elements);
      assert results[..n - 1] == Results(pre, elements) && results[n - 1] == c;
      SubsequenceSnoc(sofar, results);
      var all := IssuesOf(specs, elements);
      assert all == sofar + [c] || all == sofar;
    }
  }

  /** `matches` holds exactly the complete and partial results. */
  lemma {:induction false} MatchesByStatus(specs: seq<SpecificationElement>, elements: seq<DesignElement>)
    ensures forall c :: c in MatchesOf(specs, elements) <==> c in Results(specs, elements) && c.status != Missing
  {
    if specs != [] {
      var n := |specs|;
      var pre := specs[..n - 1];
      var last := Check(specs[n - 1], elements);
      MatchesByStatus(pre, elements);
      ResultsSnoc(specs, elements);
      assert MatchesOf(specs, elements) == MatchesOf(pre, elements) + (if last.status != Missing then [last] else []);
    }
  }

  /** `issues` holds exactly the missing results. */
  lemma {:induction false} IssuesByStatus(specs: seq<SpecificationElement>, elements: seq<DesignElement>)
    ensures forall c :: c in IssuesOf(specs, elements) <==> c in Results(specs, elements) && c.status == Missing
  {
    if specs != [] {
      var n := |specs|;
      var pre := specs[..n - 1];
      var last := Check(specs[n - 1], elements);
      IssuesByStatus(pre, elements);
      ResultsSnoc(specs, elements);
      assert IssuesOf(specs, elements) == IssuesOf(pre, elements) + (if last.status == Missing then [last] else []);
    }
  }
}
