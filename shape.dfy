/**
 * What every successful parse of xml.c builds: an element whose names are
 * valid, whose attribute values and text hold no NUL, whose text children are
 * non-empty and never adjacent; and what a whole document must look like.
 */
module Shape {
  import opened Chars
  import opened Tree
  import opened Entities
  import opened Scanner
  import opened Grammar

  /** The characters of a non-empty extracted name are name characters. */
  lemma ExtractedName(s: string, p: nat)
    requires p <= |s|
    requires Extract(s, p, NameEnd).Some? && |Extract(s, p, NameEnd).value.0| > 0
    ensures ValidName(Extract(s, p, NameEnd).value.0)
  {
    ExtractedClean(s, p, NameEnd);
  }

  /** An attribute the parser reads has a valid name and a value without NUL. */
  lemma AttrClean(s: string, p: nat)
    requires p <= |s|
    requires AttrAt(s, p).Ok?
    ensures ValidName(AttrAt(s, p).value.name) && NoNul(AttrAt(s, p).value.value)
  {
    ExtractedName(s, p);
    var p2 := SkipWs(s, Extract(s, p, NameEnd).value.1);
    var p3 := SkipWs(s, p2 + 1);
    ExtractedClean(s, p3 + 1, Quote);
    UnescapeNoNul(Extract(s, p3 + 1, Quote).value.0, 0);
  }

  /** Every attribute the attribute loop reads is clean, given that those read before were. */
  lemma {:induction false} AttrsClean(s: string, p: nat, acc: seq<Attr>)
    requires p <= |s|
    requires forall i :: 0 <= i < |acc| ==> ValidName(acc[i].name) && NoNul(acc[i].value)
    requires AttrsAt(s, p, acc).Ok?
    ensures forall i :: 0 <= i < |AttrsAt(s, p, acc).value| ==>
      ValidName(AttrsAt(s, p, acc).value[i].name) && NoNul(AttrsAt(s, p, acc).value[i].value)
    decreases |s| - p
  {
    if IsNameChar(At(s, p)) {
      var a := AttrAt(s, p);
      AttrClean(s, p);
      AttrsClean(s, SkipWs(s, a.next), acc + [a.value]);
    }
  }

  /** A run of text the content loop reads is non-empty, holds no NUL, and stops at `<`. */
  lemma TextClean(s: string, p: nat)
    requires p <= |s|
    requires At(s, p) != '<'
    requires Extract(s, p, Lt).Some?
    ensures |Unescape(Extract(s, p, Lt).value.0)| > 0
    ensures NoNul(Unescape(Extract(s, p, Lt).value.0))
    ensures At(s, Extract(s, p, Lt).value.1) == '<'
  {
    ExtractedClean(s, p, Lt);
    UnescapeNoNul(Extract(s, p, Lt).value.0, 0);
  }

  /** Every element the parser returns is well formed. */
  lemma {:induction false} TagWellFormed(s: string, p: nat)
    requires p <= |s|
    requires TagAt(s, p).Ok?
    ensures TagAt(s, p).value.Element? && WellFormed(TagAt(s, p).value)
    decreases |s| - p, 1
  {
    var p1 := SkipWs(s, p + 1);
    ExtractedName(s, p1);
    var name := Extract(s, p1, NameEnd).value;
    AttrsClean(s, SkipWs(s, name.1), []);
    var q := AttrsAt(s, SkipWs(s, name.1), []).next;
    if At(s, q) == '>' {
      ContentWellFormed(s, q + 1, name.0, []);
    }
  }

  /** Appending a well-formed child keeps the children well formed, unless it puts two texts side by side. */
  lemma AppendChild(acc: seq<Node>, c: Node)
    requires forall i :: 0 <= i < |acc| ==> WellFormed(acc[i])
    requires NoAdjacentText(acc)
    requires WellFormed(c)
    requires |acc| > 0 && acc[|acc| - 1].Text? ==> !c.Text?
    ensures forall i :: 0 <= i < |acc + [c]| ==> WellFormed((acc + [c])[i])
    ensures NoAdjacentText(acc + [c])
  {
  }

  /**
   * The children the content loop returns are well formed and no two texts
   * are adjacent, given that this holds of those read before and that the
   * cursor is on `<` whenever the last of them is text.
   */
  lemma {:induction false} ContentWellFormed(s: string, p: nat, name: string, acc: seq<Node>)
    requires p <= |s|
    requires ContentAt(s, p, name, acc).Ok?
    requires forall i :: 0 <= i < |acc| ==> WellFormed(acc[i])
    requires NoAdjacentText(acc)
    requires |acc| > 0 && acc[|acc| - 1].Text? ==> At(s, p) == '<'
    ensures forall i :: 0 <= i < |ContentAt(s, p, name, acc).value| ==> WellFormed(ContentAt(s, p, name, acc).value[i])
    ensures NoAdjacentText(ContentAt(s, p, name, acc).value)
    decreases |s| - p, 2
  {
    if At(s, p) == '<' {
      if At(s, SkipWs(s, p + 1)) != '/' {
        var child := TagAt(s, p);
        assert ContentAt(s, p, name, acc) == ContentAt(s, child.next, name, acc + [child.value]);
        TagWellFormed(s, p);
        AppendChild(acc, child.value);
        ContentWellFormed(s, child.next, name, acc + [child.value]);
      }
    } else {
      var text := Extract(s, p, Lt).value;
      var t := Text(Unescape(text.0));
      assert ContentAt(s, p, name, acc) == ContentAt(s, text.1, name, acc + [t]);
      TextClean(s, p);
      AppendChild(acc, t);
      ContentWellFormed(s, text.1, name, acc + [t]);
    }
  }

  /**
   * A valid document is a well-formed element that starts at the first
   * character, which is `<`, and runs to the end of the input: to its last
   * character when the input holds no NUL.
   */
  lemma ValidDocument(s: string)
    requires DocumentOf(s).Valid?
    ensures TagAt(s, 0).Ok? && DocumentOf(s).root == TagAt(s, 0).value
    ensures |s| > 0 && s[0] == '<'
    ensures DocumentOf(s).root.Element? && WellFormed(DocumentOf(s).root)
    ensures At(s, TagAt(s, 0).next) == '\0'
    ensures NoNul(s) ==> TagAt(s, 0).next == |s|
  {
    TagWellFormed(s, 0);
  }
}
