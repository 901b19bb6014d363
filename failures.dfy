/**
 * How the xml.c parser fails: a failure anywhere inside an element fails the
 * element and every element around it, so no partial tree is ever returned;
 * and the inputs of each kind the parser refuses.
 */
module Failures {
  import opened Chars
  import opened Tree
  import opened Entities
  import opened Scanner
  import opened Grammar
  import Shape

  /** A result of one of the parser's loops with `acc` put before the items it read. */
  function After<T>(acc: seq<T>, r: Parsed<seq<T>>): Parsed<seq<T>>
  {
    match r
    case Fail => Fail
    case Ok(children, e) => Ok(acc + children, e)
  }

  /** Putting `b` then `a` in front is putting `a + b` in front. */
  lemma AfterAfter<T>(a: seq<T>, b: seq<T>, r: Parsed<seq<T>>)
    ensures After(a, After(b, r)) == After(a + b, r)
  {
    if r.Ok? {
      assert (a + b) + r.value == a + (b + r.value);
    }
  }

  /**
   * The content loop's result does not depend on the children read before,
   * except that they come first: it fails whatever they are, or it succeeds
   * with the same children after them and at the same offset.  So a failure
   * is never hidden by what was read before, and no partial list is returned.
   */
  lemma {:induction false} ContentAfter(s: string, p: nat, name: string, acc: seq<Node>)
    requires p <= |s|
    ensures ContentAt(s, p, name, acc) == After(acc, ContentAt(s, p, name, []))
    decreases |s| - p
  {
    if At(s, p) == '<' {
      if At(s, SkipWs(s, p + 1)) == '/' {
        assert acc + [] == acc;
      } else if TagAt(s, p).Ok? {
        var c := TagAt(s, p);
        ContentAfter(s, c.next, name, acc + [c.value]);
        ContentAfter(s, c.next, name, [c.value]);
        AfterAfter(acc, [c.value], ContentAt(s, c.next, name, []));
        assert [] + [c.value] == [c.value];
      }
    } else if Extract(s, p, Lt).Some? {
      var x := Extract(s, p, Lt).value;
      var t := Text(Unescape(x.0));
      ContentAfter(s, x.1, name, acc + [t]);
      ContentAfter(s, x.1, name, [t]);
      AfterAfter(acc, [t], ContentAt(s, x.1, name, []));
      assert [] + [t] == [t];
    }
  }

  /**
   * The attribute loop likewise: a bad attribute fails the whole start tag
   * whatever came before it, and a good list is the earlier attributes
   * followed by the ones read here.
   */
  lemma {:induction false} AttrsAfter(s: string, p: nat, acc: seq<Attr>)
    requires p <= |s|
    ensures AttrsAt(s, p, acc) == After(acc, AttrsAt(s, p, []))
    decreases |s| - p
  {
    if !IsNameChar(At(s, p)) {
      assert acc + [] == acc;
    } else if AttrAt(s, p).Ok? {
      var a := AttrAt(s, p).value;
      var q := SkipWs(s, AttrAt(s, p).next);
      if At(s, q) != '\0' {
        AttrsAfter(s, q, acc + [a]);
        AttrsAfter(s, q, [a]);
        AfterAfter(acc, [a], AttrsAt(s, q, []));
        assert [] + [a] == [a];
      }
    }
  }

  /**
   * A `<` followed by `/` in content is always taken as the element's close
   * tag: it is accepted exactly when the element's own name follows, with
   * only white space around it, and then `>`; the element then ends there
   * with the children read so far.  Any other name fails the element.
   */
  lemma CloseTagDecides(s: string, p: nat, name: string, acc: seq<Node>)
    requires p <= |s| && At(s, p) == '<'
    requires At(s, SkipWs(s, p + 1)) == '/'
    ensures
      var r := SkipWs(s, SkipWs(s, p + 1) + 1);
      ContentAt(s, p, name, acc).Ok? <==>
        (forall k :: 0 <= k < |name| ==> At(s, r + k) == name[k]) && At(s, SkipWs(s, r + |name|)) == '>'
    ensures ContentAt(s, p, name, acc).Ok? ==> ContentAt(s, p, name, acc).value == acc
  {
    var q := SkipWs(s, p + 1);
    var r := SkipWs(s, q + 1);
    var j := CloseMismatch(s, r, name, 0);
    if forall k :: 0 <= k < |name| ==> At(s, r + k) == name[k] {
      assert j == |name|;
    }
  }

  /** A child element that fails to parse fails the element around it. */
  lemma ChildFails(s: string, p: nat, name: string, acc: seq<Node>)
    requires p <= |s| && At(s, p) == '<'
    requires At(s, SkipWs(s, p + 1)) != '/'
    requires TagAt(s, p).Fail?
    ensures ContentAt(s, p, name, acc).Fail?
  {
  }

  /** Text that runs to the end of the input, with no `<` after it, fails the element. */
  lemma TextToEnd(s: string, p: nat, name: string, acc: seq<Node>)
    requires p <= |s|
    requires forall k :: p <= k < |s| ==> s[k] != '<'
    ensures ContentAt(s, p, name, acc).Fail?
  {
    var q := ScanUntil(s, p, Lt);
    assert At(s, q) != '<';
  }

  /**
   * Content the parser accepts always ends with the `>` of a close tag: the
   * character just before where the content loop stops is `>`.
   */
  lemma {:induction false} ContentEndsWithGt(s: string, p: nat, name: string, acc: seq<Node>)
    requires p <= |s| && ContentAt(s, p, name, acc).Ok?
    ensures At(s, ContentAt(s, p, name, acc).next - 1) == '>'
    decreases |s| - p
  {
    if At(s, p) == '<' {
      if At(s, SkipWs(s, p + 1)) != '/' {
        var c := TagAt(s, p);
        ContentEndsWithGt(s, c.next, name, acc + [c.value]);
      }
    } else {
      var x := Extract(s, p, Lt).value;
      ContentEndsWithGt(s, x.1, name, acc + [Text(Unescape(x.0))]);
    }
  }

  /** The end of a start tag the parser accepts, with or without content, ends with `>`. */
  lemma EndEndsWithGt(s: string, q: nat, name: string, attrs: seq<Attr>)
    requires q <= |s| && ElementEnd(s, q, name, attrs).Ok?
    ensures At(s, ElementEnd(s, q, name, attrs).next - 1) == '>'
  {
    if At(s, q) == '>' {
      ContentEndsWithGt(s, q + 1, name, []);
    }
  }

  /** Every element the parser accepts ends with `>`, either of `/>` or of its close tag. */
  lemma ElementEndsWithGt(s: string, p: nat)
    requires p <= |s| && TagAt(s, p).Ok?
    ensures At(s, TagAt(s, p).next - 1) == '>'
  {
    var name := Extract(s, SkipWs(s, p + 1), NameEnd).value;
    var attrs := AttrsAt(s, SkipWs(s, name.1), []);
    assert TagAt(s, p) == ElementEnd(s, attrs.next, name.0, attrs.value);
    EndEndsWithGt(s, attrs.next, name.0, attrs.value);
  }

  /**
   * The whole-input rule: a valid document without NUL characters begins
   * with `<` and ends with `>`, so leading or trailing white space, or text
   * after the root element, makes it invalid.
   */
  lemma WholeInput(s: string)
    requires NoNul(s) && DocumentOf(s).Valid?
    ensures |s| > 0 && s[0] == '<' && s[|s| - 1] == '>'
  {
    Shape.ValidDocument(s);
    ElementEndsWithGt(s, 0);
  }
}
