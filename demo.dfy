/**
 * The scenario of `XML_test`: the tree it builds with `XML_tag`, the lookups
 * it makes in that tree, and the tree of the document it parses.  Console
 * output is left out.
 */
module Demo {
  import opened Chars
  import opened Tree
  import opened Serializer
  import opened Grammar
  import RoundTrip

  /** The tree `XML_test` builds: two attributes, a text child and an empty child element. */
  function MyXml(): Node
  {
    Build("tag-name", [("attr-name-1", "attr-value-1"), ("attr-name-2", "attr-value-2")],
      [Text("Some text & stuff in the tag"), Build("child-tag", [], [])])
  }

  /** The tree of the document `XML_test` parses. */
  function Wwxtp(): Node
  {
    Element("wwxtp", [], [
      Element("query", [], [
        Element("command", [], [Text("TEST")]),
        Element("position", [Attr("lat", "23.01515"), Attr("long", "-15.132")], [])])])
  }

  /** The names of `XML_test`'s tree are valid names. */
  lemma MyXmlNames()
    ensures ValidName("tag-name") && ValidName("child-tag")
    ensures ValidName("attr-name-1") && ValidName("attr-name-2")
  {
  }

  /** Its attribute values and its text hold no NUL, and the text is not empty. */
  lemma MyXmlStrings()
    ensures NoNul("attr-value-1") && NoNul("attr-value-2")
    ensures NoNul("Some text & stuff in the tag") && |"Some text & stuff in the tag"| > 0
  {
  }

  /** An element of the shape `XML_test` builds is well formed when its names are valid and its strings clean. */
  lemma BuiltWellFormed(name: string, a1: string, v1: string, a2: string, v2: string, t: string, c: string)
    requires ValidName(name) && ValidName(a1) && ValidName(a2) && ValidName(c)
    requires NoNul(v1) && NoNul(v2) && NoNul(t) && |t| > 0
    ensures WellFormed(Build(name, [(a1, v1), (a2, v2)], [Text(t), Build(c, [], [])]))
  {
    var children := [Text(t), Build(c, [], [])];
    assert WellFormed(children[0]) && WellFormed(children[1]);
    assert NoAdjacentText(children);
  }

  /** The tree `XML_test` builds is well formed, so what it prints parses back to it. */
  lemma MyXmlRoundTrip()
    ensures WellFormed(MyXml())
    ensures DocumentOf(Serialize(MyXml())) == Valid(MyXml())
  {
    MyXmlNames();
    MyXmlStrings();
    BuiltWellFormed("tag-name", "attr-name-1", "attr-value-1", "attr-name-2", "attr-value-2",
      "Some text & stuff in the tag", "child-tag");
    RoundTrip.SerializeThenParse(MyXml());
  }

  /**
   * The lookups of `XML_test`: `XML_get_child(my_xml, "child-tag")` yields the
   * empty element, printed as `<child-tag/>`, and `XML_get_attr(my_xml,
   * "attr-name-2")` yields `attr-value-2`.
   */
  method Lookups() returns (child: Option<Node>, value: Option<string>)
    ensures child == Some(Element("child-tag", [], [])) && Serialize(child.value) == "<child-tag/>"
    ensures value == Some("attr-value-2")
  {
    var n := MyXml();
    assert n.children[1] == Element("child-tag", [], []);
    assert n.attrs[1] == Attr("attr-name-2", "attr-value-2");
    child := GetChild(n, "child-tag");
    value := GetAttr(n, "attr-name-2");
  }

  /** The names of the parsed document are valid names. */
  lemma WwxtpNames()
    ensures ValidName("wwxtp") && ValidName("query") && ValidName("command")
    ensures ValidName("position") && ValidName("lat") && ValidName("long")
  {
  }

  /** Its attribute values and its text hold no NUL, and the text is not empty. */
  lemma WwxtpStrings()
    ensures NoNul("23.01515") && NoNul("-15.132") && NoNul("TEST") && |"TEST"| > 0
  {
  }

  /** A document of the parsed document's shape is well formed when its names are valid and its strings clean. */
  lemma NestedWellFormed(r: string, q: string, c: string, t: string, p: string, a1: string, v1: string, a2: string, v2: string)
    requires ValidName(r) && ValidName(q) && ValidName(c) && ValidName(p) && ValidName(a1) && ValidName(a2)
    requires NoNul(t) && |t| > 0 && NoNul(v1) && NoNul(v2)
    ensures WellFormed(Element(r, [], [Element(q, [], [Element(c, [], [Text(t)]), Element(p, [Attr(a1, v1), Attr(a2, v2)], [])])]))
  {
    var command := Element(c, [], [Text(t)]);
    var position := Element(p, [Attr(a1, v1), Attr(a2, v2)], []);
    assert WellFormed(command) && WellFormed(position);
    var query := Element(q, [], [command, position]);
    assert WellFormed(query);
  }

  /** The tree of the parsed document is well formed, so its text parses back to it. */
  lemma WwxtpRoundTrip()
    ensures WellFormed(Wwxtp())
    ensures DocumentOf(Serialize(Wwxtp())) == Valid(Wwxtp())
  {
    WwxtpNames();
    WwxtpStrings();
    NestedWellFormed("wwxtp", "query", "command", "TEST", "position", "lat", "23.01515", "long", "-15.132");
    RoundTrip.SerializeThenParse(Wwxtp());
  }
}
