/**
 * Worked examples: the model applied to small design documents,
 * specification entries and URLs. The flattening examples hold for any
 * text that is not blank; the others are concrete.
 */
module Scenarios {
  import opened Wrappers
  import opened JsonValue
  import opened Text
  import opened Elements
  import opened Flattener
  import opened MatchEngine
  import opened FigmaUrl

  function TextNode(characters: string): Json {
    JObj([("type", JStr("TEXT")), ("characters", JStr(characters))])
  }

  function Element(text: string, path: string): DesignElement {
    DesignElement(JStr(""), JStr(""), JStr("TEXT"), text, JStr(""), path)
  }

  lemma TextNodeLookups(c: string)
    ensures Lookup(TextNode(c).fields, "type") == Some(JStr("TEXT"))
    ensures Lookup(TextNode(c).fields, "characters") == Some(JStr(c))
    ensures Lookup(TextNode(c).fields, "id") == None
    ensures Lookup(TextNode(c).fields, "name") == None
    ensures Lookup(TextNode(c).fields, "description") == None
  {
    var f := TextNode(c).fields;
    assert f[0].0 == "type" && f[1].0 == "characters";
    assert |"type"| == 4 && |"characters"| == 10;
    assert "type" != "characters" && "type" != "id" && "type" != "name" && "type" != "description";
    assert "characters" != "id" && "characters" != "name" && "characters" != "description";
  }

  lemma TextElement(c: string, path: string)
    requires Strip(c) != []
    ensures ElementOf(TextNode(c), path) == [Element(Strip(c), path)]
  {
    TextNodeLookups(c);
    var f := TextNode(c).fields;
    assert ExtractTextContent(TextNode(c)) == JStr(c);
    assert HasText(TextNode(c));
    assert GetOr(f, "id", JStr("")) == JStr("") && GetOr(f, "name", JStr("")) == JStr("");
    assert GetOr(f, "type", JStr("")) == JStr("TEXT") && GetOr(f, "description", JStr("")) == JStr("");
  }

  /** A TEXT node with text that is not blank yields exactly its own element. */
  lemma TextNodeFlatten(c: string, path: string)
    requires Strip(c) != []
    ensures Flatten(TextNode(c), path) == [Element(Strip(c), path)]
  {
    TextElement(c, path);
    LeafFields(c, path);
  }

  lemma Zero()
    ensures NatToString(0) == "0"
  {}

  /** A list holding one TEXT node yields its element, reached along index 0. */
  lemma SingletonList(c: string, path: string)
    requires Strip(c) != []
    ensures Flatten(JArr([TextNode(c)]), path) == [Element(Strip(c), path + "[0]")]
  {
    Zero();
    assert IndexPath(path, 0) == path + "[0]";
    TextNodeFlatten(c, path + "[0]");
    assert [TextNode(c)][..0] == [];
    assert FlattenItems([TextNode(c)], path) == FlattenItems([], path) + Flatten(TextNode(c), IndexPath(path, 0));
  }

  /** A dict with one container-valued member, other than `type`, yields what that member holds. */
  lemma SingleMember(key: string, v: Json, path: string)
    requires key != "type" && IsContainer(v)
    ensures Flatten(JObj([(key, v)]), path) == Flatten(v, ChildPath(path, key))
  {
    var n := JObj([(key, v)]);
    assert Lookup(n.fields, "type") == None;
    assert ElementOf(n, path) == [];
    assert FlattenFields(n, 0, path) == [];
  }

  /** In `{"a": {"b": [X]}}` the TEXT node X is reached along `a.b[0]`, and its text is stripped. */
  lemma NestedPath(c: string)
    requires Strip(c) != []
    ensures Flatten(JObj([("a", JObj([("b", JArr([TextNode(c)]))]))]), []) == [Element(Strip(c), "a.b[0]")]
  {
    var list := JArr([TextNode(c)]);
    assert "a" != "type" && "b" != "type";
    SingleMember("a", JObj([("b", list)]), []);
    assert ChildPath([], "a") == "a";
    SingleMember("b", list, "a");
    assert ChildPath("a", "b") == "a.b";
    SingletonList(c, "a.b");
    assert "a.b" + "[0]" == "a.b[0]";
  }

  /** An item of a top-level list is reached along `[0]`. */
  lemma RootListPath(c: string)
    requires Strip(c) != []
    ensures Flatten(JArr([TextNode(c)]), []) == [Element(Strip(c), "[0]")]
  {
    SingletonList(c, []);
    assert [] + "[0]" == "[0]";
  }

  lemma BlankElement(c: string, path: string)
    requires Strip(c) == []
    ensures ElementOf(TextNode(c), path) == []
  {
    TextNodeLookups(c);
    assert ExtractTextContent(TextNode(c)) == JStr(c);
    assert !HasText(TextNode(c));
  }

  lemma LeafFields(c: string, path: string)
    ensures FlattenFields(TextNode(c), 2, path) == []
  {
    assert FlattenFields(TextNode(c), 1, path) == [];
  }

  /** A TEXT node whose text is blank yields nothing. */
  lemma BlankTextDropped(c: string, path: string)
    requires Strip(c) == []
    ensures Flatten(TextNode(c), path) == []
  {
    BlankElement(c, path);
    LeafFields(c, path);
  }

  function Parent(p: string, c: string): Json {
    JObj([("type", JStr("TEXT")), ("characters", JStr(p)), ("children", JArr([TextNode(c)]))])
  }

  lemma ParentLookups(p: string, c: string)
    ensures Lookup(Parent(p, c).fields, "type") == Some(JStr("TEXT"))
    ensures Lookup(Parent(p, c).fields, "characters") == Some(JStr(p))
    ensures Lookup(Parent(p, c).fields, "id") == None
    ensures Lookup(Parent(p, c).fields, "name") == None
    ensures Lookup(Parent(p, c).fields, "description") == None
  {
    var f := Parent(p, c).fields;
    assert f[0].0 == "type" && f[1].0 == "characters" && f[2].0 == "children";
    assert |"type"| == 4 && |"characters"| == 10 && |"children"| == 8;
    assert "type" != "characters" && "type" != "id" && "type" != "name" && "type" != "description";
    assert "characters" != "id" && "characters" != "name" && "characters" != "description";
    assert "children" != "id" && "children" != "name" && "children" != "description";
  }

  lemma ParentElement(p: string, c: string)
    requires Strip(p) != []
    ensures ElementOf(Parent(p, c), []) == [Element(Strip(p), [])]
  {
    ParentLookups(p, c);
    var f := Parent(p, c).fields;
    assert ExtractTextContent(Parent(p, c)) == JStr(p);
    assert HasText(Parent(p, c));
    assert GetOr(f, "id", JStr("")) == JStr("") && GetOr(f, "name", JStr("")) == JStr("");
    assert GetOr(f, "type", JStr("")) == JStr("TEXT") && GetOr(f, "description", JStr("")) == JStr("");
  }

  lemma ParentFields(p: string, c: string)
    requires Strip(c) != []
    ensures FlattenFields(Parent(p, c), 3, []) == [Element(Strip(c), "children[0]")]
  {
    var n := Parent(p, c);
    SingletonList(c, "children");
    assert "children" + "[0]" == "children[0]";
    assert FlattenFields(n, 1, []) == [];
    assert FlattenFields(n, 2, []) == [];
    assert ChildPath([], "children") == "children";
  }

  /** Pre-order: a TEXT node's own element comes before those found beneath it. */
  lemma ParentBeforeChild(p: string, c: string)
    requires Strip(p) != [] && Strip(c) != []
    ensures Flatten(Parent(p, c), []) == [Element(Strip(p), []), Element(Strip(c), "children[0]")]
  {
    ParentElement(p, c);
    ParentFields(p, c);
  }


  function Spec(texts: seq<string>): SpecificationElement {
    SpecificationElement(JStr("s1"), JStr("buttons"), JStr(""), JStr(""), JStr(""), JStr(""), texts)
  }

  /** A needle whose first character does not occur in the haystack is not in it. */
  lemma FirstCharAbsent(hay: string, needle: string)
    requires needle != [] && forall k :: 0 <= k < |hay| ==> hay[k] != needle[0]
    ensures !Contains(hay, needle)
  {
    forall i | 0 <= i <= |hay|
      ensures !(needle <= hay[i..])
    {
      if i < |hay| {
        assert hay[i..][0] == hay[i] != needle[0];
      }
    }
  }

  lemma Lowered()
    ensures Lower("Save") == "save" && Lower("Cancel") == "cancel" && Lower("cancel now") == "cancel now"
    ensures Lower("Save Now") == "save now"
  {
    assert LowerChar('S') == 's' && LowerChar('C') == 'c' && LowerChar('N') == 'n';
    assert Lower("Save") == [LowerChar('S'), LowerChar('a'), LowerChar('v'), LowerChar('e')];
    assert Lower("Cancel") == [LowerChar('C'), LowerChar('a'), LowerChar('n'), LowerChar('c'), LowerChar('e'), LowerChar('l')];
    assert Lower("cancel now") == [LowerChar('c'), LowerChar('a'), LowerChar('n'), LowerChar('c'), LowerChar('e'), LowerChar('l'),
                                   LowerChar(' '), LowerChar('n'), LowerChar('o'), LowerChar('w')];
    assert Lower("Save Now") == [LowerChar('S'), LowerChar('a'), LowerChar('v'), LowerChar('e'),
                                 LowerChar(' '), LowerChar('N'), LowerChar('o'), LowerChar('w')];
  }

  lemma SaveCancelTests()
    ensures TextsMatch("Save", "Save") && !TextsMatch("Save", "cancel now")
    ensures !TextsMatch("Cancel", "Save") && TextsMatch("Cancel", "cancel now")
    ensures TextsMatch("Save", "Save Now")
  {
    Lowered();
    FirstCharAbsent("cancel now", "save");
    FirstCharAbsent("cancel", "save");
    assert !Contains("save", "cancel");
    assert !Contains("save", "cancel now");
    assert "cancel" <= "cancel now"[0..];
    assert "save" <= "save now"[0..];
  }

  lemma CompleteFinds()
    ensures FoundFor("Save", ["Save", "cancel now"]) == Some(FoundText("Save", "Save", ExactMatch))
    ensures FoundFor("Cancel", ["Save", "cancel now"]) == Some(FoundText("Cancel", "cancel now", PartialMatch))
  {
    SaveCancelTests();
    Lowered();
    var corpus := ["Save", "cancel now"];
    assert FindFrom("Save", corpus, 0) == Some(0);
    assert FindFrom("Cancel", corpus, 1) == Some(1);
    assert FindFrom("Cancel", corpus, 0) == Some(1);
  }

  /** The entry `found_texts` gets for one required text. */
  function Hit(o: Option<FoundText>): seq<FoundText> {
    match o
    case Some(f) => [f]
    case None => []
  }

  /** The entry `missing_texts` gets for one required text. */
  function Miss(required: string, o: Option<FoundText>): seq<string> {
    if o.None? then [required] else []
  }

  /** The result for an entry with two required texts, in terms of what each of them finds. */
  lemma CheckOfTwo(a: string, b: string, elements: seq<DesignElement>, corpus: seq<string>)
    requires Corpus(elements) == corpus
    ensures var c := Check(Spec([a, b]), elements);
            && c.foundTexts == Hit(FoundFor(a, corpus)) + Hit(FoundFor(b, corpus))
            && c.missingTexts == Miss(a, FoundFor(a, corpus)) + Miss(b, FoundFor(b, corpus))
            && c.implementationRate == ImplementationRate(|c.foundTexts|, 2)
            && c.status == StatusOf(c.implementationRate)
  {
    assert [a, b][..1] == [a];
    assert [a][..0] == [];
    assert FoundTexts([a], corpus) == Hit(FoundFor(a, corpus));
    assert MissingTexts([a], corpus) == Miss(a, FoundFor(a, corpus));
  }

  /** Both required texts are found, one exactly and one inside a longer design text: complete. */
  lemma CompleteScenario()
    ensures var c := Check(Spec(["Save", "Cancel"]), [Element("Save", "a"), Element("cancel now", "b")]);
            && c.foundTexts == [FoundText("Save", "Save", ExactMatch), FoundText("Cancel", "cancel now", PartialMatch)]
            && c.missingTexts == [] && c.implementationRate == 1.0 && c.status == Complete
  {
    var elements := [Element("Save", "a"), Element("cancel now", "b")];
    var corpus := ["Save", "cancel now"];
    assert Corpus(elements) == corpus;
    CompleteFinds();
    CheckOfTwo("Save", "Cancel", elements, corpus);
    assert ImplementationRate(2, 2) == 1.0;
  }

  /** One of two required texts is found: the rate is one half and the entry is partial. */
  lemma PartialScenario()
    ensures var c := Check(Spec(["Save", "Cancel"]), [Element("Save", "a")]);
            && c.foundTexts == [FoundText("Save", "Save", ExactMatch)]
            && c.missingTexts == ["Cancel"] && c.implementationRate == 0.5 && c.status == Partial
  {
    SaveCancelTests();
    var elements := [Element("Save", "a")];
    var corpus := Corpus(elements);
    assert corpus == ["Save"];
    assert FindFrom("Save", corpus, 0) == Some(0);
    assert FindFrom("Cancel", corpus, 0) == None;
    CheckOfTwo("Save", "Cancel", elements, corpus);
  }

  /** A match inside a longer text is taken when it comes first, even though an exact one follows. */
  lemma FirstMatchWins()
    ensures FoundFor("Save", ["Save Now", "Save"]) == Some(FoundText("Save", "Save Now", PartialMatch))
  {
    SaveCancelTests();
    Lowered();
    assert FindFrom("Save", ["Save Now", "Save"], 0) == Some(0);
  }

  lemma OkMatchesNeither()
    ensures !TextsMatch("Save", "OK") && !TextsMatch("Cancel", "OK")
  {
    Lowered();
    assert Lower("OK") == [LowerChar('O'), LowerChar('K')] == "ok";
    FirstCharAbsent("ok", "save");
    FirstCharAbsent("ok", "cancel");
    FirstCharAbsent("save", "ok");
    FirstCharAbsent("cancel", "ok");
  }

  /** Neither required text is found: the rate is zero, the entry is missing and lands among the issues. */
  lemma MissingScenario()
    ensures var c := Check(Spec(["Save", "Cancel"]), [Element("OK", "a")]);
            && c.foundTexts == [] && c.missingTexts == ["Save", "Cancel"]
            && c.implementationRate == 0.0 && c.status == Missing
            && MatchesOf([Spec(["Save", "Cancel"])], [Element("OK", "a")]) == []
            && IssuesOf([Spec(["Save", "Cancel"])], [Element("OK", "a")]) == [c]
  {
    OkMatchesNeither();
    var elements := [Element("OK", "a")];
    var corpus := Corpus(elements);
    assert corpus == ["OK"];
    assert FindFrom("Save", corpus, 0) == None;
    assert FindFrom("Cancel", corpus, 0) == None;
    CheckOfTwo("Save", "Cancel", elements, corpus);
    var c := Check(Spec(["Save", "Cancel"]), elements);
    assert c.status == Missing;
    assert [Spec(["Save", "Cancel"])][..0] == [];
  }

  /** Upper-case `SAVE` matches `save` exactly. */
  lemma CaseInsensitive()
    ensures FoundFor("SAVE", ["save"]) == Some(FoundText("SAVE", "save", ExactMatch))
  {
    assert Lower("SAVE") == [LowerChar('S'), LowerChar('A'), LowerChar('V'), LowerChar('E')] == "save";
    assert Lower("save") == "save";
    assert FindFrom("SAVE", ["save"], 0) == Some(0);
  }

  /** With `Save` before `Save Now`, the required text `Save` is matched exactly by the first. */
  lemma EarlierExactWins()
    ensures FoundFor("Save", ["Save", "Save Now"]) == Some(FoundText("Save", "Save", ExactMatch))
  {
    assert FindFrom("Save", ["Save", "Save Now"], 0) == Some(0);
  }

  /** The pattern cannot start where the URL has no `f`. */
  lemma NoMatchWithoutF(url: string, q: nat)
    requires q < |url| && url[q] != 'f'
    ensures !MatchesAt(url, q)
  {
    assert FilePrefix[0] == 'f';
  }

  lemma Leftmost(url: string, p: nat)
    requires p < |url| && MatchesAt(url, p) && forall q :: 0 <= q < p ==> !MatchesAt(url, q)
    ensures SearchFrom(url, 0) == Some(p)
  {
  }

  lemma ExampleUrlSpelledOut()
    ensures "https://www." + FilePrefix + "AbC123/Title" == "https://www.figma.com/file/AbC123/Title"
  {}

  lemma NoMatchInHost(url: string)
    requires url == "https://www." + FilePrefix + "AbC123/Title"
    ensures forall q :: 0 <= q < 12 ==> !MatchesAt(url, q)
  {
    var head := "https://www.";
    forall q | 0 <= q < 12 ensures !MatchesAt(url, q) {
      assert url[q] == head[q];
      NoMatchWithoutF(url, q);
    }
  }

  lemma MatchAfterHost(url: string)
    requires url == "https://www." + FilePrefix + "AbC123/Title"
    ensures MatchesAt(url, 12) && url[27..] == "AbC123/Title"
  {
    assert url[12..] == FilePrefix + "AbC123/Title";
  }

  lemma KeyOfExamplePath()
    ensures KeyRun("AbC123/Title") == "AbC123"
  {
    assert "AbC123/Title" == "AbC123" + "/Title";
    assert forall k :: 0 <= k < 6 ==> IsKeyChar("AbC123"[k]);
    KeyRunOf("AbC123", "/Title");
  }

  /** The key of a file URL is the run of letters and digits after `figma.com/file/`. */
  lemma KeyOfUrl()
    ensures ExtractFigmaFileKey("https://www.figma.com/file/AbC123/Title") == Some("AbC123")
  {
    var url := "https://www." + FilePrefix + "AbC123/Title";
    ExampleUrlSpelledOut();
    NoMatchInHost(url);
    MatchAfterHost(url);
    Leftmost(url, 12);
    KeyOfExamplePath();
  }

  /** A URL without the pattern has no key. */
  lemma NoKeyInOtherUrl()
    ensures ExtractFigmaFileKey("https://example.com/x") == None
  {
    var url := "https://example.com/x";
    assert |url| == 21 && url[..6] == "https:";
    forall q | 0 <= q < |url| ensures !MatchesAt(url, q) {
      if q < 6 {
        assert url[q] == "https:"[q];
        NoMatchWithoutF(url, q);
      }
    }
  }
}
