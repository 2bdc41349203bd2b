/**
 * The tree flattener: a depth-first, pre-order walk over a parsed design
 * document that yields one DesignElement per TEXT node with non-blank
 * text. Every dict- or list-valued member is descended into, whatever its
 * key. The functions here are the specification that the walking method
 * DesignChecker.TraverseNodes is proved against.
 */
module Flattener {
  import opened Wrappers
  import opened JsonValue
  import opened Text
  import opened Elements

  /** `node.get('type') == 'TEXT'` on a dict. */
  predicate IsTextNode(node: Json) {
    node.JObj? && Lookup(node.fields, "type") == Some(JStr("TEXT"))
  }

  /**
   * `extract_text_content`: the raw value the node's text is read from.
   * Only the first branch is reachable from the flattener, which calls it
   * on TEXT nodes alone.
   */
  function ExtractTextContent(node: Json): Json {
    match node
    case JObj(fields) =>
      if Lookup(fields, "type") == Some(JStr("TEXT")) then GetOr(fields, "characters", JStr(""))
      else if Lookup(fields, "characters").Some? then GetOr(fields, "characters", JStr(""))
      else if Lookup(fields, "name").Some? then GetOr(fields, "name", JStr(""))
      else JStr("")
    case _ => JStr("")
  }

  /** Calling `.strip()` on the text of this node raises: it is a TEXT node whose `characters` is not a string. */
  predicate StripRaises(node: Json) {
    IsTextNode(node) && !ExtractTextContent(node).JStr?
  }

  /** True when a TEXT node carries text that is not blank. */
  predicate HasText(node: Json) {
    IsTextNode(node) && ExtractTextContent(node).JStr? && Strip(ExtractTextContent(node).s) != []
  }

  /** The element emitted for `node` itself, if any. */
  function ElementOf(node: Json, path: string): seq<DesignElement>
    requires node.JObj?
  {
    if HasText(node) then
      var fields := node.fields;
      [DesignElement(
        GetOr(fields, "id", JStr("")),
        GetOr(fields, "name", JStr("")),
        GetOr(fields, "type", JStr("")),
        Strip(ExtractTextContent(node).s),
        GetOr(fields, "description", JStr("")),
        path)]
    else []
  }

  /** What an emitted element holds: the node is a TEXT node and the element carries its stripped, non-empty text. */
  lemma ElementOfSpec(node: Json, path: string)
    requires node.JObj?
    ensures |ElementOf(node, path)| <= 1
    ensures ElementOf(node, path) != [] <==> HasText(node)
    ensures forall e :: e in ElementOf(node, path) ==>
              && IsTextNode(node)
              && e.kind == JStr("TEXT")
              && e.path == path
              && e.textContent == Strip(ExtractTextContent(node).s)
              && e.textContent != []
              && IsStripped(e.textContent)
  {
    if HasText(node) {
      StripCharacterisation(ExtractTextContent(node).s);
    }
  }

  /** The path of a member: `f"{path}.{key}" if path else key`. */
  function ChildPath(path: string, key: string): string {
    if path == [] then key else path + "." + key
  }

  /** The path of a list item: `f"{path}[{i}]"`. */
  function IndexPath(path: string, i: nat): string {
    path + "[" + NatToString(i) + "]"
  }

  /** The elements found by walking `node`, reached along `path`. */
  function Flatten(node: Json, path: string): seq<DesignElement>
    decreases node
  {
    match node
    case JObj(fields) => ElementOf(node, path) + FlattenFields(node, |fields|, path)
    case JArr(items) => FlattenItems(items, path)
    case _ => []
  }

  /** The elements found under the first `n` members of an object, in member order. */
  function FlattenFields(node: Json, n: nat, path: string): seq<DesignElement>
    requires node.JObj? && n <= |node.fields|
    decreases node, n
  {
    if n == 0 then []
    else
      var last := node.fields[n - 1];
      assert last in node.fields;
      FlattenFields(node, n - 1, path)
      + (if IsContainer(last.1) then Flatten(last.1, ChildPath(path, last.0)) else [])
  }

  /** The elements found under the items of a list, in index order. */
  function FlattenItems(items: seq<Json>, path: string): seq<DesignElement>
    decreases items
  {
    if items == [] then []
    else FlattenItems(items[..|items| - 1], path) + Flatten(items[|items| - 1], IndexPath(path, |items| - 1))
  }

  /** The walk meets a TEXT node whose `characters` is not a string, and so raises. */
  predicate Raises(node: Json)
    decreases node
  {
    match node
    case JObj(fields) => StripRaises(node) || FieldsRaise(node, |fields|)
    case JArr(items) => ItemsRaise(items)
    case _ => false
  }

  /** Walking the first `n` members of an object raises. */
  predicate FieldsRaise(node: Json, n: nat)
    requires node.JObj? && n <= |node.fields|
    decreases node, n
  {
    n != 0 &&
      var last := node.fields[n - 1];
      assert last in node.fields;
      FieldsRaise(node, n - 1) || (IsContainer(last.1) && Raises(last.1))
  }

  /** Walking the items of a list raises. */
  predicate ItemsRaise(items: seq<Json>)
    decreases items
  {
    items != [] && (ItemsRaise(items[..|items| - 1]) || Raises(items[|items| - 1]))
  }

  /** The outcome of `extract_design_elements` on a parsed document. */
  datatype ExtractError = CharactersNotAString

  function Extracted(data: Json): Result<seq<DesignElement>, ExtractError> {
    if Raises(data) then Failure(CharactersNotAString) else Success(Flatten(data, []))
  }

  // ---------------------------------------------------------------------
  // An independent description of the walk: the sequence of containers it
  // visits, in pre-order, each with the path it is reached by.
  // ---------------------------------------------------------------------

  /** Every dict and list the walk calls itself on, in the order it meets them. */
  function Visits(node: Json, path: string): seq<(Json, string)>
    decreases node
  {
    match node
    case JObj(fields) => [(node, path)] + VisitFields(node, |fields|, path)
    case JArr(items) => [(node, path)] + VisitItems(items, path)
    case _ => []
  }

  function VisitFields(node: Json, n: nat, path: string): seq<(Json, string)>
    requires node.JObj? && n <= |node.fields|
    decreases node, n
  {
    if n == 0 then []
    else
      var last := node.fields[n - 1];
      assert last in node.fields;
      VisitFields(node, n - 1, path)
      + (if IsContainer(last.1) then Visits(last.1, ChildPath(path, last.0)) else [])
  }

  function VisitItems(items: seq<Json>, path: string): seq<(Json, string)>
    decreases items
  {
    if items == [] then []
    else VisitItems(items[..|items| - 1], path) + Visits(items[|items| - 1], IndexPath(path, |items| - 1))
  }

  /** The elements the visited dicts emit, one visit after another. */
  function Emit(vs: seq<(Json, string)>): seq<DesignElement> {
    if vs == [] then []
    else
      var v := vs[|vs| - 1];
      Emit(vs[..|vs| - 1]) + (if v.0.JObj? then ElementOf(v.0, v.1) else [])
  }

  lemma {:induction false} EmitAppend(a: seq<(Json, string)>, b: seq<(Json, string)>)
    ensures Emit(a + b) == Emit(a) + Emit(b)
    decreases |b|
  {
    if b != [] {
      var v := b[|b| - 1];
      assert (a + b)[..|a + b| - 1] == a + b[..|b| - 1];
      EmitAppend(a, b[..|b| - 1]);
    } else {
      assert a + b == a;
    }
  }

  lemma {:induction false} EmitMembers(vs: seq<(Json, string)>)
    ensures forall e :: e in Emit(vs) ==> exists v :: v in vs && v.0.JObj? && e in ElementOf(v.0, v.1)
    ensures forall v :: v in vs && v.0.JObj? && HasText(v.0) ==> ElementOf(v.0, v.1)[0] in Emit(vs)
    decreases |vs|
  {
    if vs != [] {
      var v := vs[|vs| - 1];
      EmitMembers(vs[..|vs| - 1]);
      assert vs == vs[..|vs| - 1] + [v];
    }
  }

  lemma EmitOne(v: (Json, string))
    ensures Emit([v]) == if v.0.JObj? then ElementOf(v.0, v.1) else []
  {
    assert [v][..0] == [];
  }

  /** The flattener emits exactly what the visited dicts emit, in visiting order. */
  lemma {:induction false} FlattenByVisits(node: Json, path: string)
    ensures Flatten(node, path) == Emit(Visits(node, path))
    decreases node
  {
    match node
    case JObj(fields) =>
      var rest := VisitFields(node, |fields|, path);
      FieldsByVisits(node, |fields|, path);
      EmitAppend([(node, path)], rest);
      EmitOne((node, path));
      assert Visits(node, path) == [(node, path)] + rest;
    case JArr(items) =>
      var rest := VisitItems(items, path);
      ItemsByVisits(items, path);
      EmitAppend([(node, path)], rest);
      EmitOne((node, path));
      assert Visits(node, path) == [(node, path)] + rest;
    case _ =>
  }

  lemma {:induction false} FieldsByVisits(node: Json, n: nat, path: string)
    requires node.JObj? && n <= |node.fields|
    ensures FlattenFields(node, n, path) == Emit(VisitFields(node, n, path))
    decreases node, n
  {
    if n > 0 {
      var last := node.fields[n - 1];
      assert last in node.fields;
      FieldsByVisits(node, n - 1, path);
      if IsContainer(last.1) {
        FlattenByVisits(last.1, ChildPath(path, last.0));
        EmitAppend(VisitFields(node, n - 1, path), Visits(last.1, ChildPath(path, last.0)));
      } else {
        assert VisitFields(node, n, path) == VisitFields(node, n - 1, path);
      }
    }
  }

  lemma {:induction false} ItemsByVisits(items: seq<Json>, path: string)
    ensures FlattenItems(items, path) == Emit(VisitItems(items, path))
    decreases items
  {
    if items != [] {
      var n := |items|;
      ItemsByVisits(items[..n - 1], path);
      FlattenByVisits(items[n - 1], IndexPath(path, n - 1));
      EmitAppend(VisitItems(items[..n - 1], path), Visits(items[n - 1], IndexPath(path, n - 1)));
    }
  }

  /**
   * What the flattener yields: each element comes from a visited TEXT node
   * with non-blank text, carries that node's path and its stripped text,
   * and every such node contributes its element.
   */
  lemma FlattenedElements(node: Json, path: string)
    ensures forall e :: e in Flatten(node, path) ==>
              e.kind == JStr("TEXT") && e.textContent != [] && IsStripped(e.textContent)
    ensures forall e :: e in Flatten(node, path) ==>
              exists v :: v in Visits(node, path) && HasText(v.0) && e.path == v.1
                && e.textContent == Strip(ExtractTextContent(v.0).s)
    ensures forall v :: v in Visits(node, path) && HasText(v.0) ==> ElementOf(v.0, v.1)[0] in Flatten(node, path)
  {
    FlattenByVisits(node, path);
    EmitMembers(Visits(node, path));
    forall e | e in Flatten(node, path)
      ensures e.kind == JStr("TEXT") && e.textContent != [] && IsStripped(e.textContent)
      ensures exists v :: v in Visits(node, path) && HasText(v.0) && e.path == v.1
                && e.textContent == Strip(ExtractTextContent(v.0).s)
    {
      var v :| v in Visits(node, path) && v.0.JObj? && e in ElementOf(v.0, v.1);
      ElementOfSpec(v.0, v.1);
    }
  }

  lemma {:induction false} EmitNoText(vs: seq<(Json, string)>)
    requires forall v :: v in vs ==> !IsTextNode(v.0)
    ensures Emit(vs) == []
    decreases |vs|
  {
    if vs != [] {
      var v := vs[|vs| - 1];
      assert v in vs;
      EmitNoText(vs[..|vs| - 1]);
    }
  }

  /** A document in which the walk meets no TEXT node flattens to nothing. */
  lemma NoTextNoElements(node: Json, path: string)
    requires forall v :: v in Visits(node, path) ==> !IsTextNode(v.0)
    ensures Flatten(node, path) == []
  {
    FlattenByVisits(node, path);
    EmitNoText(Visits(node, path));
  }

  /** Every path the walk builds extends the path it started from. */
  lemma {:induction false} VisitPathsExtend(node: Json, path: string)
    ensures forall v :: v in Visits(node, path) ==> path <= v.1
    decreases node
  {
    match node
    case JObj(fields) => FieldPathsExtend(node, |fields|, path);
    case JArr(items) => ItemPathsExtend(items, path);
    case _ =>
  }

  lemma {:induction false} FieldPathsExtend(node: Json, n: nat, path: string)
    requires node.JObj? && n <= |node.fields|
    ensures forall v :: v in VisitFields(node, n, path) ==> path <= v.1
    decreases node, n
  {
    if n > 0 {
      var last := node.fields[n - 1];
      assert last in node.fields;
      FieldPathsExtend(node, n - 1, path);
      if IsContainer(last.1) {
        var child := ChildPath(path, last.0);
        VisitPathsExtend(last.1, child);
        assert path <= child;
        forall v | v in Visits(last.1, child) ensures path <= v.1 {
          assert child <= v.1;
        }
      }
    }
  }

  lemma {:induction false} ItemPathsExtend(items: seq<Json>, path: string)
    ensures forall v :: v in VisitItems(items, path) ==> path <= v.1
    decreases items
  {
    if items != [] {
      var n := |items|;
      var child := IndexPath(path, n - 1);
      ItemPathsExtend(items[..n - 1], path);
      VisitPathsExtend(items[n - 1], child);
      assert path <= child;
      forall v | v in Visits(items[n - 1], child) ensures path <= v.1 {
        assert child <= v.1;
      }
    }
  }

  /** The walk raises exactly when one of the dicts it visits is a TEXT node whose `characters` is not a string. */
  lemma {:induction false} RaisesByVisits(node: Json, path: string)
    ensures Raises(node) <==> exists v :: v in Visits(node, path) && StripRaises(v.0)
    decreases node
  {
    match node
    case JObj(fields) =>
      FieldsRaiseByVisits(node, |fields|, path);
      assert Visits(node, path) == [(node, path)] + VisitFields(node, |fields|, path);
    case JArr(items) =>
      ItemsRaiseByVisits(items, path);
      assert Visits(node, path) == [(node, path)] + VisitItems(items, path);
    case _ =>
  }

  lemma {:induction false} FieldsRaiseByVisits(node: Json, n: nat, path: string)
    requires node.JObj? && n <= |node.fields|
    ensures FieldsRaise(node, n) <==> exists v :: v in VisitFields(node, n, path) && StripRaises(v.0)
    decreases node, n
  {
    if n > 0 {
      var last := node.fields[n - 1];
      assert last in node.fields;
      FieldsRaiseByVisits(node, n - 1, path);
      if IsContainer(last.1) {
        RaisesByVisits(last.1, ChildPath(path, last.0));
      }
    }
  }

  lemma {:induction false} ItemsRaiseByVisits(items: seq<Json>, path: string)
    ensures ItemsRaise(items) <==> exists v :: v in VisitItems(items, path) && StripRaises(v.0)
    decreases items
  {
    if items != [] {
      var n := |items|;
      ItemsRaiseByVisits(items[..n - 1], path);
      RaisesByVisits(items[n - 1], IndexPath(path, n - 1));
    }
  }

  /** Once the walk over the first members has raised, walking more members still raises. */
  lemma {:induction false} FieldsRaiseGrows(node: Json, i: nat, j: nat)
    requires node.JObj? && i <= j <= |node.fields|
    requires FieldsRaise(node, i)
    ensures FieldsRaise(node, j)
    decreases j - i
  {
    if i < j {
      FieldsRaiseGrows(node, i, j - 1);
    }
  }

  /** Once the walk over the first items has raised, walking the whole list still raises. */
  lemma {:induction false} ItemsRaiseGrows(items: seq<Json>, i: nat)
    requires i <= |items|
    requires ItemsRaise(items[..i])
    ensures ItemsRaise(items)
    decreases |items| - i
  {
    if i < |items| {
      assert items[..i + 1][..i] == items[..i];
      ItemsRaiseGrows(items, i + 1);
    } else {
      assert items[..i] == items;
    }
  }

  /** One more member of a dict holding a dict or a list, as the walk's loop takes it, after the elements found so far. */
  lemma FieldsStep(node: Json, i: nat, path: string, elements: seq<DesignElement>)
    requires node.JObj? && i < |node.fields| && IsContainer(node.fields[i].1)
    ensures elements + FlattenFields(node, i + 1, path)
            == (elements + FlattenFields(node, i, path)) + Flatten(node.fields[i].1, ChildPath(path, node.fields[i].0))
    ensures FieldsRaise(node, i + 1) == (FieldsRaise(node, i) || Raises(node.fields[i].1))
  {
    var front := FlattenFields(node, i, path);
    var child := Flatten(node.fields[i].1, ChildPath(path, node.fields[i].0));
    assert FlattenFields(node, i + 1, path) == front + child;
    assert elements + (front + child) == (elements + front) + child;
  }

  /** One more member of a dict holding neither a dict nor a list adds nothing and raises nothing. */
  lemma FieldsSkip(node: Json, i: nat, path: string)
    requires node.JObj? && i < |node.fields| && !IsContainer(node.fields[i].1)
    ensures FlattenFields(node, i + 1, path) == FlattenFields(node, i, path)
    ensures FieldsRaise(node, i + 1) == FieldsRaise(node, i)
  {
    assert FlattenFields(node, i, path) + [] == FlattenFields(node, i, path);
  }

  /** One more item of a list, as the walk's loop takes it, after the elements found so far. */
  lemma ItemsStep(items: seq<Json>, i: nat, path: string, elements: seq<DesignElement>)
    requires i < |items|
    ensures elements + FlattenItems(items[..i + 1], path)
            == (elements + FlattenItems(items[..i], path)) + Flatten(items[i], IndexPath(path, i))
    ensures ItemsRaise(items[..i + 1]) == (ItemsRaise(items[..i]) || Raises(items[i]))
  {
    var front := items[..i + 1];
    assert front[..i] == items[..i] && front[i] == items[i];
    assert FlattenItems(front, path) == FlattenItems(items[..i], path) + Flatten(items[i], IndexPath(path, i));
  }

  /** A dict's walk is its own element followed by its members'; it raises at the node or in a member. */
  lemma DictUnfold(node: Json, path: string)
    requires node.JObj?
    ensures Flatten(node, path) == ElementOf(node, path) + FlattenFields(node, |node.fields|, path)
    ensures Raises(node) == (StripRaises(node) || FieldsRaise(node, |node.fields|))
  {
  }
}
