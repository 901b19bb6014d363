/**
 * Small documents and what the xml.c parser makes of them: the two spellings
 * of an empty element, and one document for each way the parser refuses its
 * input.  Each proof walks the grammar over the document offset by offset.
 */
module Samples {
  import opened Chars
  import opened Tree
  import opened Scanner
  import opened Grammar
  import Failures

  /** The start `<a` of every sample: the root's name is `a`, and the cursor after it is 2. */
  lemma NameA(s: string)
    requires |s| >= 3 && s[0] == '<' && s[1] == 'a' && !IsNameChar(s[2])
    ensures At(s, 0) == '<' && SkipWs(s, 1) == 1
    ensures Extract(s, 1, NameEnd) == Some(("a", 2))
  {
    assert ScanUntil(s, 2, NameEnd) == 2;
    assert s[1..2] == "a";
  }

  /** `<a/>` and `<a></a>` are the same empty element. */
  lemma EmptyElementSpellings()
    ensures DocumentOf("<a/>") == Valid(Element("a", [], []))
    ensures DocumentOf("<a></a>") == Valid(Element("a", [], []))
  {
    var s := "<a/>";
    NameA(s);
    assert AttrsAt(s, 2, []) == Ok([], 2);
    assert SkipWs(s, 3) == 3;
    assert ElementEnd(s, 2, "a", []) == Ok(Element("a", [], []), 4);
    assert TagAt(s, 0) == Ok(Element("a", [], []), 4);
    var t := "<a></a>";
    NameA(t);
    assert AttrsAt(t, 2, []) == Ok([], 2);
    assert SkipWs(t, 4) == 4 && SkipWs(t, 5) == 5 && SkipWs(t, 6) == 6;
    assert CloseMismatch(t, 5, "a", 1) == 1;
    assert CloseMismatch(t, 5, "a", 0) == 1;
    assert CloseTagAt(t, 4, "a") == Some(7);
    assert ContentAt(t, 3, "a", []) == Ok([], 7);
    assert ElementEnd(t, 2, "a", []) == Ok(Element("a", [], []), 7);
    assert TagAt(t, 0) == Ok(Element("a", [], []), 7);
  }

  /** A close tag must name the element it closes. */
  lemma MismatchedCloseTag()
    ensures DocumentOf("<a></b>") == Invalid
  {
    var s := "<a></b>";
    NameA(s);
    assert AttrsAt(s, 2, []) == Ok([], 2);
    assert SkipWs(s, 4) == 4 && SkipWs(s, 5) == 5;
    assert CloseMismatch(s, 5, "a", 0) == 0;
    assert CloseTagAt(s, 4, "a") == None;
    assert ContentAt(s, 3, "a", []) == Fail;
  }

  /** A child that fails, here because its close tag names its parent, fails the parent. */
  lemma FailingChild()
    ensures DocumentOf("<a><b></a>") == Invalid
  {
    var s := "<a><b></a>";
    NameA(s);
    assert AttrsAt(s, 2, []) == Ok([], 2);
    assert SkipWs(s, 4) == 4 && At(s, 4) == 'b';
    assert ScanUntil(s, 5, NameEnd) == 5 && ScanUntil(s, 4, NameEnd) == 5;
    assert s[4..5] == "b";
    assert SkipWs(s, 5) == 5 && AttrsAt(s, 5, []) == Ok([], 5);
    assert SkipWs(s, 7) == 7 && SkipWs(s, 8) == 8;
    assert CloseMismatch(s, 8, "b", 0) == 0;
    assert ContentAt(s, 6, "b", []) == Fail;
    assert ElementEnd(s, 5, "b", []) == Fail;
    assert TagAt(s, 3) == Fail;
    Failures.ChildFails(s, 3, "a", []);
  }

  /** An attribute needs `=` after its name. */
  lemma MissingEquals()
    ensures DocumentOf("<a x/>") == Invalid
  {
    var s := "<a x/>";
    NameA(s);
    assert SkipWs(s, 2) == 3;
    assert ScanUntil(s, 4, NameEnd) == 4 && ScanUntil(s, 3, NameEnd) == 4;
    assert SkipWs(s, 4) == 4;
    assert AttrAt(s, 3) == Fail;
  }

  /** An attribute value needs its opening `"`. */
  lemma UnquotedValue()
    ensures DocumentOf("<a x=y/>") == Invalid
  {
    var s := "<a x=y/>";
    NameA(s);
    assert SkipWs(s, 2) == 3;
    assert ScanUntil(s, 4, NameEnd) == 4 && ScanUntil(s, 3, NameEnd) == 4;
    assert SkipWs(s, 4) == 4 && SkipWs(s, 5) == 5;
    assert AttrAt(s, 3) == Fail;
  }

  /** An attribute value needs its closing `"`. */
  lemma UnterminatedValue()
    ensures DocumentOf("<a x=\"y/>") == Invalid
  {
    var s := "<a x=\"y/>";
    NameA(s);
    assert SkipWs(s, 2) == 3;
    assert ScanUntil(s, 4, NameEnd) == 4 && ScanUntil(s, 3, NameEnd) == 4;
    assert SkipWs(s, 4) == 4 && SkipWs(s, 5) == 5;
    assert s[3..4] == "x";
    assert Extract(s, 3, NameEnd) == Some(("x", 4));
    assert ScanUntil(s, 6, Quote) == 9;
    assert Extract(s, 6, Quote) == None;
    assert AttrAt(s, 3) == Fail;
  }

  /** The input must not end right after the `>` of a start tag. */
  lemma EndAfterStartTag()
    ensures DocumentOf("<a>") == Invalid
  {
    var s := "<a>";
    NameA(s);
    assert AttrsAt(s, 2, []) == Ok([], 2);
    assert At(s, 3) == '\0';
  }

  /** Text must be followed by a `<`. */
  lemma TextToEnd()
    ensures DocumentOf("<a>text") == Invalid
  {
    var s := "<a>text";
    NameA(s);
    assert AttrsAt(s, 2, []) == Ok([], 2);
    Failures.TextToEnd(s, 3, "a", []);
  }

  /** Nothing, not even white space, may follow the root element. */
  lemma TrailingSpace()
    ensures DocumentOf("<a/> ") == Invalid
  {
    var s := "<a/> ";
    if DocumentOf(s).Valid? {
      Failures.WholeInput(s);
    }
  }
}
