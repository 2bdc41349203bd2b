/**
 * The specification loader: turns the parsed specification document into
 * SpecificationElement records, one per entry of its `specifications`
 * array, in order, with absent members defaulting to the empty string (or
 * the empty list for `design_texts`). A missing file is the input `None`
 * and yields no records. The exceptions the source lets escape are the
 * `Failure` cases.
 */
module SpecLoader {
  import opened Wrappers
  import opened JsonValue
  import opened Elements

  datatype LoadError =
    | RootNotAnObject          // `data.get` on a value that is not a dict
    | SpecificationsNotIterable // `for item in` a null, a boolean or a number
    | ItemNotAnObject          // `item.get` on a value that is not a dict
    | DesignTextsNotStrings    // `design_texts` does not iterate to strings

  /**
   * The values `for item in v` goes through: the items of a list, the
   * one-character strings of a string, the keys of a dict.
   */
  function Iterate(v: Json): (r: Result<seq<Json>, LoadError>)
    ensures v.JArr? ==> r == Success(v.items)
    ensures v.JStr? ==> r.Success? && |r.value| == |v.s| && forall i :: 0 <= i < |v.s| ==> r.value[i] == JStr([v.s[i]])
    ensures v.JObj? ==> r.Success? && |r.value| == |v.fields| && forall i :: 0 <= i < |v.fields| ==> r.value[i] == JStr(v.fields[i].0)
    ensures r.Failure? <==> !(v.JArr? || v.JStr? || v.JObj?)
  {
    match v
    case JArr(items) => Success(items)
    case JStr(s) => Success(seq(|s|, i requires 0 <= i < |s| => JStr([s[i]])))
    case JObj(fields) => Success(seq(|fields|, i requires 0 <= i < |fields| => JStr(fields[i].0)))
    case _ => Failure(SpecificationsNotIterable)
  }

  /** The strings of a `design_texts` list. */
  function Strings(items: seq<Json>): (r: Option<seq<string>>)
    ensures r.Some? <==> forall i :: 0 <= i < |items| ==> items[i].JStr?
    ensures r.Some? ==> |r.value| == |items| && forall i :: 0 <= i < |items| ==> JStr(r.value[i]) == items[i]
  {
    if items == [] then Some([])
    else match Strings(items[..|items| - 1])
      case None => None
      case Some(ts) =>
        if items[|items| - 1].JStr? then Some(ts + [items[|items| - 1].s]) else None
  }

  /**
   * `item.get('design_texts', [])`, as the strings the matcher goes
   * through: the items of a list of strings, the characters of a string,
   * the keys of a dict.
   */
  function DesignTexts(fields: seq<(string, Json)>): Result<seq<string>, LoadError> {
    DesignTextsOf(GetOr(fields, "design_texts", JArr([])))
  }

  function DesignTextsOf(v: Json): Result<seq<string>, LoadError> {
    match v
    case JArr(items) =>
      (match Strings(items)
       case Some(ts) => Success(ts)
       case None => Failure(DesignTextsNotStrings))
    case JStr(s) => Success(seq(|s|, i requires 0 <= i < |s| => [s[i]]))
    case JObj(keyed) => Success(seq(|keyed|, i requires 0 <= i < |keyed| => keyed[i].0))
    case _ => Failure(DesignTextsNotStrings)
  }

  /**
   * A list of strings gives its items, a string its characters, a dict
   * its keys; a list holding anything else, a null, a boolean or a number
   * is rejected.
   */
  lemma DesignTextsSpec(fields: seq<(string, Json)>)
    ensures var v := GetOr(fields, "design_texts", JArr([]));
            var r := DesignTexts(fields);
            && (v.JArr? ==> (r.Success? <==> forall i :: 0 <= i < |v.items| ==> v.items[i].JStr?))
            && (v.JArr? && r.Success? ==> |r.value| == |v.items| && forall i :: 0 <= i < |v.items| ==> JStr(r.value[i]) == v.items[i])
            && (v.JStr? ==> r.Success? && |r.value| == |v.s| && forall i :: 0 <= i < |v.s| ==> r.value[i] == [v.s[i]])
            && (v.JObj? ==> r.Success? && |r.value| == |v.fields| && forall i :: 0 <= i < |v.fields| ==> r.value[i] == v.fields[i].0)
            && (!(v.JArr? || v.JStr? || v.JObj?) ==> r == Failure(DesignTextsNotStrings))
  {
  }

  /** The record built from one entry of `specifications`. */
  function SpecOf(item: Json): Result<SpecificationElement, LoadError> {
    if !item.JObj? then Failure(ItemNotAnObject)
    else
      var f := item.fields;
      var ts := DesignTexts(f);
      if ts.Failure? then Failure(ts.error)
      else
        Success(SpecificationElement(
          GetOr(f, "id", JStr("")),
          GetOr(f, "name", JStr("")),
          GetOr(f, "text_content", JStr("")),
          GetOr(f, "description", JStr("")),
          GetOr(f, "category", JStr("")),
          GetOr(f, "priority", JStr("")),
          ts.value))
  }

  /** The outcome of reading each entry, in order. */
  function Attempts(items: seq<Json>): seq<Result<SpecificationElement, LoadError>> {
    seq(|items|, i requires 0 <= i < |items| => SpecOf(items[i]))
  }

  /** The records of a sequence of outcomes: all of them, in order, or the first error. */
  function Gather(attempts: seq<Result<SpecificationElement, LoadError>>): (r: Result<seq<SpecificationElement>, LoadError>)
    ensures r.Success? <==> forall i :: 0 <= i < |attempts| ==> attempts[i].Success?
    ensures r.Success? ==> |r.value| == |attempts| && forall i :: 0 <= i < |attempts| ==> attempts[i] == Success(r.value[i])
    ensures r.Failure? ==> exists i :: 0 <= i < |attempts| && attempts[i] == Failure(r.error)
                              && forall j :: 0 <= j < i ==> attempts[j].Success?
  {
    if attempts == [] then Success([])
    else
      var n := |attempts|;
      var front := attempts[..n - 1];
      assert forall i :: 0 <= i < n - 1 ==> front[i] == attempts[i];
      match Gather(front)
      case Failure(e) =>
        var i :| 0 <= i < n - 1 && front[i] == Failure(e) && forall j :: 0 <= j < i ==> front[j].Success?;
        assert attempts[i] == Failure(e);
        Failure(e)
      case Success(prefix) =>
        var last := attempts[n - 1];
        if last.Failure? then
          assert attempts[n - 1] == Failure(last.error);
          Failure(last.error)
        else
          Success(prefix + [last.value])
  }

  /**
   * The records built from a sequence of entries: one per entry, in order,
   * or the error of the first entry that cannot be read.
   */
  function SpecsOf(items: seq<Json>): (r: Result<seq<SpecificationElement>, LoadError>)
    ensures r.Success? <==> forall i :: 0 <= i < |items| ==> SpecOf(items[i]).Success?
    ensures r.Success? ==> |r.value| == |items|
    ensures r.Success? ==> forall i :: 0 <= i < |items| ==> SpecOf(items[i]) == Success(r.value[i])
    ensures r.Failure? ==> exists i :: 0 <= i < |items| && SpecOf(items[i]) == Failure(r.error)
                              && forall j :: 0 <= j < i ==> SpecOf(items[j]).Success?
  {
    var attempts := Attempts(items);
    assert |attempts| == |items| && forall i :: 0 <= i < |items| ==> attempts[i] == SpecOf(items[i]);
    Gather(attempts)
  }

  /**
   * `load_specification_from_file` on an already-parsed document; `None`
   * stands for a file that does not exist.
   */
  function LoadSpecification(source: Option<Json>): (r: Result<seq<SpecificationElement>, LoadError>)
    ensures source.None? ==> r == Success([])
    ensures source.Some? && !source.value.JObj? ==> r == Failure(RootNotAnObject)
    ensures source.Some? && source.value.JObj? && Lookup(source.value.fields, "specifications").Some? ==>
              var v := Lookup(source.value.fields, "specifications").value;
              !(v.JArr? || v.JStr? || v.JObj?) ==> r == Failure(SpecificationsNotIterable)
  {
    match source
    case None => Success([])
    case Some(JObj(f)) =>
      (match Iterate(GetOr(f, "specifications", JArr([])))
       case Success(items) => SpecsOf(items)
       case Failure(e) => Failure(e))
    case Some(_) => Failure(RootNotAnObject)
  }

  /**
   * A record holds the entry's members, each defaulting to `''` when
   * absent, and the required texts `design_texts` gives, `[]` when absent.
   */
  lemma SpecOfRecord(item: Json)
    ensures SpecOf(item).Success? <==> item.JObj? && DesignTexts(item.fields).Success?
    ensures SpecOf(item).Success? ==>
              var r := SpecOf(item).value;
              var g := item.fields;
              && r.id == GetOr(g, "id", JStr(""))
              && r.name == GetOr(g, "name", JStr(""))
              && r.textContent == GetOr(g, "text_content", JStr(""))
              && r.description == GetOr(g, "description", JStr(""))
              && r.category == GetOr(g, "category", JStr(""))
              && r.priority == GetOr(g, "priority", JStr(""))
              && r.designTexts == DesignTexts(g).value
    ensures item.JObj? && Lookup(item.fields, "design_texts").None? ==>
              SpecOf(item).Success? && SpecOf(item).value.designTexts == []
  {
    if item.JObj? {
      var g := item.fields;
      if Lookup(g, "design_texts").None? {
        assert GetOr(g, "design_texts", JArr([])) == JArr([]);
      }
    }
  }

  /**
   * The loader returns one record per entry of a `specifications` list, in
   * input order; an absent `specifications` member gives no records.
   */
  lemma LoadedRecords(f: seq<(string, Json)>)
    requires Lookup(f, "specifications").Some? ==> Lookup(f, "specifications").value.JArr?
    ensures Lookup(f, "specifications").None? ==> LoadSpecification(Some(JObj(f))) == Success([])
    ensures Lookup(f, "specifications").Some? ==>
              var items := Lookup(f, "specifications").value.items;
              var r := LoadSpecification(Some(JObj(f)));
              && (r.Success? <==> forall i :: 0 <= i < |items| ==> SpecOf(items[i]).Success?)
              && (r.Success? ==> |r.value| == |items|)
              && (r.Success? ==> forall i :: 0 <= i < |items| ==> SpecOf(items[i]) == Success(r.value[i]))
  {
  }

  /**
   * A `specifications` member that is a string or a dict is iterated too:
   * an empty one gives no records, and a non-empty one fails at its first
   * character or key, which is not a dict.
   */
  lemma SpecificationsStringOrDict(f: seq<(string, Json)>)
    requires Lookup(f, "specifications").Some?
    requires Lookup(f, "specifications").value.JStr? || Lookup(f, "specifications").value.JObj?
    ensures var v := Lookup(f, "specifications").value;
            var n := if v.JStr? then |v.s| else |v.fields|;
            && (n == 0 ==> LoadSpecification(Some(JObj(f))) == Success([]))
            && (n > 0 ==> LoadSpecification(Some(JObj(f))) == Failure(ItemNotAnObject))
  {
    var v := Lookup(f, "specifications").value;
    var items := Iterate(v).value;
    assert GetOr(f, "specifications", JArr([])) == v;
    if items != [] {
      assert items[0].JStr?;
      assert SpecOf(items[0]) == Failure(ItemNotAnObject);
      assert Gather(Attempts(items)).Failure?;
      var i :| 0 <= i < |items| && Attempts(items)[i] == Failure(Gather(Attempts(items)).error);
      assert items[i].JStr?;
    }
  }

  /** Once an entry fails to load, the loader's result is that failure, whatever follows. */
  lemma {:induction false} FailureIsFinal(attempts: seq<Result<SpecificationElement, LoadError>>, k: nat)
    requires k <= |attempts| && Gather(attempts[..k]).Failure?
    ensures Gather(attempts) == Gather(attempts[..k])
    decreases |attempts| - k
  {
    if k < |attempts| {
      assert attempts[..k + 1][..k] == attempts[..k];
      FailureIsFinal(attempts, k + 1);
    } else {
      assert attempts[..k] == attempts;
    }
  }
}
