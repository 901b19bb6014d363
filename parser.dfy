/**
 * The parser of xml.c as it runs: `XML_parse_tag` moves a cursor `p` through
 * the input, reading with `At`, and grows the attribute and child lists one
 * entry at a time; `XML_parse` and `XML_parse_n` wrap it.  Each method is
 * proved to compute exactly the corresponding function of `Grammar`.
 */
module Parser {
  import opened Chars
  import opened Tree
  import opened Entities
  import opened Scanner
  import opened Grammar

  /** The body of the attribute loop of `XML_parse_tag`: one `name="value"`. */
  method ParseAttr(s: string, p0: nat) returns (r: Parsed<Attr>)
    requires p0 <= |s|
    ensures r == AttrAt(s, p0)
  {
    var attrname := ExtractUntil(s, p0, NameEnd);
    if attrname.None? || |attrname.value.0| == 0 {
      return Fail;
    }
    var p := EatWs(s, attrname.value.1);
    if At(s, p) != '=' {
      return Fail;
    }
    p := EatWs(s, p + 1);
    if At(s, p) != '"' {
      return Fail;
    }
    var attrvalesc := ExtractUntil(s, p + 1, Quote);
    if attrvalesc.None? {
      return Fail;
    }
    p := attrvalesc.value.1;
    if At(s, p) != '"' {
      return Fail;
    }
    var attrval := UnescapeString(attrvalesc.value.0);
    r := Ok(Attr(attrname.value.0, attrval), p + 1);
  }

  /** The attribute loop of `XML_parse_tag`, appending each attribute to `attrs`. */
  method ParseAttrs(s: string, p0: nat) returns (r: Parsed<seq<Attr>>)
    requires p0 <= |s|
    ensures r == AttrsAt(s, p0, [])
  {
    var p := p0;
    var attrs: seq<Attr> := [];
    while IsNameChar(At(s, p))
      invariant p <= |s|
      invariant AttrsAt(s, p, attrs) == AttrsAt(s, p0, [])
      decreases |s| - p
    {
      var a := ParseAttr(s, p);
      if a.Fail? {
        return Fail;
      }
      attrs := attrs + [a.value];
      p := EatWs(s, a.next);
      if At(s, p) == '\0' {
        return Fail;
      }
    }
    r := Ok(attrs, p);
  }

  /**
   * `XML_parse_tag`: `<`, the name, the attributes, then `/>` or `>` and the
   * content loop.  On success the cursor ends just past the element.
   */
  method ParseTag(s: string, p0: nat) returns (r: Parsed<Node>)
    requires p0 <= |s|
    ensures r == TagAt(s, p0)
    decreases |s| - p0, 1
  {
    if At(s, p0) != '<' {
      return Fail;
    }
    var p := EatWs(s, p0 + 1);
    if At(s, p) == '\0' {
      return Fail;
    }
    var name := ExtractUntil(s, p, NameEnd);
    if name.None? || |name.value.0| == 0 {
      return Fail;
    }
    p := EatWs(s, name.value.1);
    var attrs := ParseAttrs(s, p);
    if attrs.Fail? {
      return Fail;
    }
    p := attrs.next;
    if At(s, p) == '/' {
      p := EatWs(s, p + 1);
      if At(s, p) != '>' {
        return Fail;
      }
      return Ok(Element(name.value.0, attrs.value, []), p + 1);
    } else if At(s, p) == '>' {
      p := p + 1;
      if At(s, p) == '\0' {
        return Fail;
      }
      var contents := ParseContent(s, p, name.value.0);
      if contents.Fail? {
        return Fail;
      }
      return Ok(Element(name.value.0, attrs.value, contents.value), contents.next);
    }
    return Fail;
  }

  /**
   * The close-tag branch of the content loop, from the `/`: compares the name
   * character by character with the element's own, then expects `>`.
   */
  method ParseCloseTag(s: string, q: nat, name: string) returns (r: Option<nat>)
    requires q <= |s|
    ensures r == CloseTagAt(s, q, name)
  {
    var p := EatWs(s, q + 1);
    var i := 0;
    while i < |name|
      invariant 0 <= i <= |name|
      invariant CloseMismatch(s, p, name, i) == CloseMismatch(s, p, name, 0)
    {
      if At(s, p + i) != name[i] {
        return None;
      }
      i := i + 1;
    }
    p := EatWs(s, p + |name|);
    if At(s, p) != '>' {
      return None;
    }
    return Some(p + 1);
  }

  /**
   * One pass of the content loop of `XML_parse_tag` at `p`: the close tag
   * finishes the element (or fails it); a child element or a run of text is
   * appended to `contents` and the loop goes on after it.
   */
  method ParseContentStep(s: string, p: nat, name: string, contents: seq<Node>)
    returns (finished: bool, r: Parsed<seq<Node>>, next: nat, contents': seq<Node>)
    requires p <= |s|
    ensures finished ==> r == ContentAt(s, p, name, contents)
    ensures !finished ==> p < next <= |s| && ContentAt(s, next, name, contents') == ContentAt(s, p, name, contents)
    decreases |s| - p, 2
  {
    finished, r, next, contents' := true, Fail, p, contents;
    if At(s, p) == '<' {
      var q := EatWs(s, p + 1);
      if At(s, q) == '/' {
        var end := ParseCloseTag(s, q, name);
        if end.Some? {
          r := Ok(contents, end.value);
        }
      } else {
        var child := ParseTag(s, p);
        if child.Ok? {
          finished, next, contents' := false, child.next, contents + [child.value];
        }
      }
    } else {
      var textesc := ExtractUntil(s, p, Lt);
      if textesc.Some? {
        var text := UnescapeString(textesc.value.0);
        finished, next, contents' := false, textesc.value.1, contents + [Text(text)];
      }
    }
  }

  /**
   * The content loop of `XML_parse_tag` (the `for (;;)`): close tag, child
   * element or text, appending each child to `contents`, until the close tag
   * returns or a failure does.
   */
  method ParseContent(s: string, p0: nat, name: string) returns (r: Parsed<seq<Node>>)
    requires p0 <= |s|
    ensures r == ContentAt(s, p0, name, [])
    decreases |s| - p0, 3
  {
    var p := p0;
    var contents: seq<Node> := [];
    while true
      invariant p0 <= p <= |s|
      invariant ContentAt(s, p, name, contents) == ContentAt(s, p0, name, [])
      decreases |s| - p
    {
      var finished;
      finished, r, p, contents := ParseContentStep(s, p, name, contents);
      if finished {
        return;
      }
    }
  }

  /**
   * `XML_parse`: one element from the start of the input, which must then be
   * at its end.
   */
  method Parse(s: string) returns (r: Document)
    ensures r == DocumentOf(s)
  {
    var tag := ParseTag(s, 0);
    if tag.Fail? {
      return Invalid;
    }
    if At(s, tag.next) != '\0' {
      return Invalid;
    }
    return Valid(tag.value);
  }

  /**
   * `XML_parse_n`: parses a NUL-terminated copy of the first `n` characters,
   * so nothing past them is ever read.
   */
  method ParseN(s: string, n: nat) returns (r: Document)
    requires n <= |s|
    ensures r == DocumentOf(s[..n])
  {
    var realp := s[..n];
    r := Parse(realp);
  }
}
