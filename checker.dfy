/**
 * The DesignChecker object: the design elements and specification entries
 * a run works on, and the operations that fill and compare them. Each
 * method does what the source does, step by step, and is proved to
 * compute the specification function of the same operation.
 */
module Checker {
  import opened Wrappers
  import opened JsonValue
  import opened Text
  import opened Elements
  import opened Flattener
  import opened SpecLoader
  import opened MatchEngine

  class DesignChecker {
    var designElements: seq<DesignElement>
    var specElements: seq<SpecificationElement>
    var matches: seq<CheckResult>
    var issues: seq<CheckResult>

    constructor ()
      ensures designElements == [] && specElements == [] && matches == [] && issues == []
    {
      designElements := [];
      specElements := [];
      matches := [];
      issues := [];
    }

    /** `extract_design_elements` on the parsed document `data`. */
    method ExtractDesignElements(data: Json) returns (r: Result<seq<DesignElement>, ExtractError>)
      ensures r == Extracted(data)
    {
      var ok, elements := TraverseNodes(data, [], []);
      assert ok ==> elements == Flatten(data, []);
      if ok {
        r := Success(elements);
      } else {
        r := Failure(CharactersNotAString);
      }
    }

    /**
     * `traverse_nodes`: appends to `elements` what the walk over `node`
     * finds, or reports that the walk raised.
     */
    method TraverseNodes(node: Json, path: string, elements: seq<DesignElement>)
      returns (ok: bool, out: seq<DesignElement>)
      ensures ok == !Raises(node)
      ensures ok ==> out == elements + Flatten(node, path)
      decreases node, 2
    {
      match node
      case JObj(_) =>
        ok, out := TraverseDict(node, path, elements);
      case JArr(_) =>
        ok, out := TraverseList(node, path, elements);
      case _ =>
        ok, out := true, elements;
    }

    /** The dict branch of `traverse_nodes`: the node's own element, then what its members hold. */
    method TraverseDict(node: Json, path: string, elements: seq<DesignElement>)
      returns (ok: bool, out: seq<DesignElement>)
      requires node.JObj?
      ensures ok == !Raises(node)
      ensures ok ==> out == elements + Flatten(node, path)
      decreases node, 1
    {
      DictUnfold(node, path);
      var own;
      ok, own := NodeElement(node, path);
      if !ok {
        return false, elements;
      }
      ok, out := TraverseMembers(node, path, elements + own);
    }

    /** The loop of lines 85-87: each member holding a dict or a list is walked, with the key added to the path. */
    method TraverseMembers(node: Json, path: string, elements: seq<DesignElement>)
      returns (ok: bool, out: seq<DesignElement>)
      requires node.JObj?
      ensures ok == !FieldsRaise(node, |node.fields|)
      ensures ok ==> out == elements + FlattenFields(node, |node.fields|, path)
      decreases node, 0
    {
      var fields := node.fields;
      out := elements;
      var i := 0;
      while i < |fields|
        invariant 0 <= i <= |fields|
        invariant !FieldsRaise(node, i)
        invariant out == elements + FlattenFields(node, i, path)
      {
        var key, value := fields[i].0, fields[i].1;
        assert fields[i] in fields;
        if IsContainer(value) {
          FieldsStep(node, i, path, elements);
          var childOk, childOut := TraverseNodes(value, ChildPath(path, key), out);
          if !childOk {
            FieldsRaiseGrows(node, i + 1, |fields|);
            return false, childOut;
          }
          out := childOut;
        } else {
          FieldsSkip(node, i, path);
        }
        i := i + 1;
      }
      ok := true;
    }

    /**
     * Lines 59-82 of `traverse_nodes`: the element a TEXT node with
     * non-blank text contributes, or the failure of `.strip()` on text
     * that is not a string.
     */
    method NodeElement(node: Json, path: string) returns (ok: bool, own: seq<DesignElement>)
      requires node.JObj?
      ensures ok == !StripRaises(node)
      ensures ok ==> own == ElementOf(node, path)
    {
      var fields := node.fields;
      own := [];
      ok := true;
      if Lookup(fields, "type") == Some(JStr("TEXT")) {
        var textContent := ExtractTextContent(node);
        if !textContent.JStr? {
          return false, own;
        }
        if Strip(textContent.s) != [] {
          var element := DesignElement(
            GetOr(fields, "id", JStr("")),
            GetOr(fields, "name", JStr("")),
            GetOr(fields, "type", JStr("")),
            Strip(textContent.s),
            GetOr(fields, "description", JStr("")),
            path);
          own := [element];
        }
      }
    }

    /** The list branch of `traverse_nodes`: each item, with its index in the path. */
    method TraverseList(node: Json, path: string, elements: seq<DesignElement>)
      returns (ok: bool, out: seq<DesignElement>)
      requires node.JArr?
      ensures ok == !Raises(node)
      ensures ok ==> out == elements + Flatten(node, path)
      decreases node, 0
    {
      var items := node.items;
      out := elements;
      var i := 0;
      while i < |items|
        invariant 0 <= i <= |items|
        invariant !ItemsRaise(items[..i])
        invariant out == elements + FlattenItems(items[..i], path)
      {
        ItemsStep(items, i, path, elements);
        var childOk, childOut := TraverseNodes(items[i], IndexPath(path, i), out);
        if !childOk {
          ItemsRaiseGrows(items, i + 1);
          return false, childOut;
        }
        out := childOut;
        i := i + 1;
      }
      assert items[..i] == items;
      ok := true;
    }

    /**
     * `load_specification_from_file` on an already-parsed document; `None`
     * stands for a file that does not exist.
     */
    method LoadSpecificationFromFile(source: Option<Json>)
      returns (r: Result<seq<SpecificationElement>, LoadError>)
      ensures r == LoadSpecification(source)
    {
      if source.None? {
        return Success([]);
      }
      if !source.value.JObj? {
        return Failure(RootNotAnObject);
      }
      var iterated := Iterate(GetOr(source.value.fields, "specifications", JArr([])));
      if iterated.Failure? {
        return Failure(iterated.error);
      }
      var items := iterated.value;
      ghost var attempts := Attempts(items);
      var specs: seq<SpecificationElement> := [];
      var i := 0;
      while i < |items|
        invariant 0 <= i <= |items|
        invariant Gather(attempts[..i]) == Success(specs)
      {
        assert attempts[..i + 1][..i] == attempts[..i];
        var spec := SpecOf(items[i]);
        if spec.Failure? {
          FailureIsFinal(attempts, i + 1);
          return Failure(spec.error);
        }
        specs := specs + [spec.value];
        i := i + 1;
      }
      assert attempts[..i] == attempts;
      r := Success(specs);
    }

    /** `check_text_implementation` for one specification entry. */
    method CheckTextImplementation(spec: SpecificationElement, elements: seq<DesignElement>)
      returns (result: CheckResult)
      ensures result == Check(spec, elements)
    {
      var requiredTexts := spec.designTexts;
      var foundTexts: seq<FoundText> := [];
      var missingTexts: seq<string> := [];
      var allDesignTexts := Corpus(elements);
      var i := 0;
      while i < |requiredTexts|
        invariant 0 <= i <= |requiredTexts|
        invariant foundTexts == FoundTexts(requiredTexts[..i], allDesignTexts)
        invariant missingTexts == MissingTexts(requiredTexts[..i], allDesignTexts)
      {
        var requiredText := requiredTexts[i];
        TextsStep(requiredTexts, i, allDesignTexts);
        var entry := FindRequiredText(requiredText, allDesignTexts);
        if entry.Some? {
          foundTexts := foundTexts + [entry.value];
        } else {
          missingTexts := missingTexts + [requiredText];
        }
        i := i + 1;
      }
      assert requiredTexts[..i] == requiredTexts;
      var rate := if |requiredTexts| > 0 then |foundTexts| as real / |requiredTexts| as real else 0.0;
      var status := if rate == 1.0 then Complete else if rate > 0.0 then Partial else Missing;
      result := CheckResult(spec.id, spec.name, requiredTexts, foundTexts, missingTexts, rate, status);
    }

    /**
     * The inner loop of lines 128-140: scan the design texts in order and
     * stop at the first one that matches `requiredText`.
     */
    method FindRequiredText(requiredText: string, allDesignTexts: seq<string>) returns (entry: Option<FoundText>)
      ensures entry == FoundFor(requiredText, allDesignTexts)
    {
      var j := 0;
      while j < |allDesignTexts|
        invariant 0 <= j <= |allDesignTexts|
        invariant forall k :: 0 <= k < j ==> !TextsMatch(requiredText, allDesignTexts[k])
      {
        var designText := allDesignTexts[j];
        if Lower(requiredText) == Lower(designText)
           || Contains(Lower(designText), Lower(requiredText))
           || Contains(Lower(requiredText), Lower(designText))
        {
          var matchType := if Lower(requiredText) == Lower(designText) then ExactMatch else PartialMatch;
          assert FirstMatch(requiredText, allDesignTexts) == Some(j);
          return Some(FoundText(requiredText, designText, matchType));
        }
        j := j + 1;
      }
      return None;
    }

    /** `compare_elements`: the results of all specification entries, split into matches and issues. */
    method CompareElements() returns (matches: seq<CheckResult>, issues: seq<CheckResult>)
      ensures matches == MatchesOf(specElements, designElements)
      ensures issues == IssuesOf(specElements, designElements)
    {
      matches := [];
      issues := [];
      var i := 0;
      while i < |specElements|
        invariant 0 <= i <= |specElements|
        invariant matches == MatchesOf(specElements[..i], designElements)
        invariant issues == IssuesOf(specElements[..i], designElements)
      {
        assert specElements[..i + 1][..i] == specElements[..i];
        var result := CheckTextImplementation(specElements[i], designElements);
        if result.status == Complete {
          matches := matches + [result];
        } else if result.status == Partial {
          matches := matches + [result];
        } else {
          issues := issues + [result];
        }
        i := i + 1;
      }
      assert specElements[..i] == specElements;
    }
  }
}
