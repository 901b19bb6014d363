/**
 * What the recursive-descent parser of xml.c accepts and builds, stated as
 * functions of the input and a cursor.  Each function follows one stretch of
 * `XML_parse_tag` branch by branch: a `goto ERR_NEW` or `goto ERR_PROP`
 * becomes `Fail`, and a success carries the value built and the cursor just
 * past what was consumed.  Failures carry no position: the source reports one
 * only through the global `failp`, which is not part of this model.
 */
module Grammar {
  import opened Chars
  import opened Tree
  import opened Entities
  import opened Scanner

  datatype Parsed<T> = Ok(value: T, next: nat) | Fail

  /** What `XML_parse` returns: the root element, or NULL. */
  datatype Document = Valid(root: Node) | Invalid

  /**
   * One attribute, `name = "value"` with optional white space around `=`, at
   * `p`, which holds a name character.  The value is unescaped.
   */
  function AttrAt(s: string, p: nat): (r: Parsed<Attr>)
    requires p <= |s|
    ensures r.Ok? ==> p < r.next <= |s|
  {
    var name := Extract(s, p, NameEnd);
    if name.None? || |name.value.0| == 0 then Fail
    else
      var p2 := SkipWs(s, name.value.1);
      if At(s, p2) != '=' then Fail
      else
        var p3 := SkipWs(s, p2 + 1);
        if At(s, p3) != '"' then Fail
        else
          var value := Extract(s, p3 + 1, Quote);
          if value.None? then Fail
          else if At(s, value.value.1) != '"' then Fail
          else Ok(Attr(name.value.0, Unescape(value.value.0)), value.value.1 + 1)
  }

  /**
   * The attribute loop: while the cursor is on a name character, one more
   * attribute, then white space, and the input must not end there.  `acc`
   * holds the attributes read so far.
   */
  function AttrsAt(s: string, p: nat, acc: seq<Attr>): (r: Parsed<seq<Attr>>)
    requires p <= |s|
    ensures r.Ok? ==> p <= r.next <= |s| && !IsNameChar(At(s, r.next))
    decreases |s| - p
  {
    if !IsNameChar(At(s, p)) then Ok(acc, p)
    else
      match AttrAt(s, p)
      case Fail => Fail
      case Ok(a, q) =>
        var q2 := SkipWs(s, q);
        if At(s, q2) == '\0' then Fail else AttrsAt(s, q2, acc + [a])
  }

  /**
   * The first offset `j >= i` at which the close tag read from `r` stops
   * matching `name`, or `|name|` when it matches all the way.
   */
  function CloseMismatch(s: string, r: nat, name: string, i: nat): (j: nat)
    requires i <= |name|
    ensures i <= j <= |name|
    ensures forall k :: i <= k < j ==> At(s, r + k) == name[k]
    ensures j < |name| ==> At(s, r + j) != name[j]
    decreases |name| - i
  {
    if i == |name| || At(s, r + i) != name[i] then i else CloseMismatch(s, r, name, i + 1)
  }

  /**
   * The rest of a close tag whose `/` is at `q`: white space, exactly `name`,
   * white space and `>`; the offset just past that `>`.
   */
  function CloseTagAt(s: string, q: nat, name: string): (r: Option<nat>)
    requires q <= |s|
    ensures r.Some? ==> q < r.value <= |s|
  {
    var r := SkipWs(s, q + 1);
    var j := CloseMismatch(s, r, name, 0);
    if j < |name| then None
    else
      var t := SkipWs(s, r + |name|);
      if At(s, t) != '>' then None else Some(t + 1)
  }

  /**
   * An element at `p`: `<`, white space, a non-empty name, white space, the
   * attributes, then the end of the start tag.
   */
  function TagAt(s: string, p: nat): (r: Parsed<Node>)
    requires p <= |s|
    ensures r.Ok? ==> p < r.next <= |s|
    decreases |s| - p, 1
  {
    if At(s, p) != '<' then Fail
    else
      var p1 := SkipWs(s, p + 1);
      if At(s, p1) == '\0' then Fail
      else
        var name := Extract(s, p1, NameEnd);
        if name.None? || |name.value.0| == 0 then Fail
        else
          match AttrsAt(s, SkipWs(s, name.value.1), [])
          case Fail => Fail
          case Ok(attrs, q) => ElementEnd(s, q, name.value.0, attrs)
  }

  /**
   * The end of a start tag at `q`, after the attributes: either `/` white
   * space `>`, or `>` followed by content (the input must not end right after
   * that `>`).
   */
  function ElementEnd(s: string, q: nat, name: string, attrs: seq<Attr>): (r: Parsed<Node>)
    requires q <= |s|
    ensures r.Ok? ==> q < r.next <= |s|
    decreases |s| - q, 3
  {
    if At(s, q) == '/' then
      var q2 := SkipWs(s, q + 1);
      if At(s, q2) != '>' then Fail else Ok(Element(name, attrs, []), q2 + 1)
    else if At(s, q) == '>' then
      if At(s, q + 1) == '\0' then Fail
      else
        match ContentAt(s, q + 1, name, [])
        case Fail => Fail
        case Ok(children, e) => Ok(Element(name, attrs, children), e)
    else Fail
  }

  /**
   * The content loop of an element named `name`, at `p`: a close tag
   * `<` ws `/` ws name ws `>` ends it; any other `<` starts a child element,
   * whose failure is the element's failure; anything else is text up to the
   * next `<`, which must exist.  `acc` holds the children read so far.
   */
  function ContentAt(s: string, p: nat, name: string, acc: seq<Node>): (r: Parsed<seq<Node>>)
    requires p <= |s|
    ensures r.Ok? ==> p < r.next <= |s|
    decreases |s| - p, 2
  {
    if At(s, p) == '<' then
      var q := SkipWs(s, p + 1);
      if At(s, q) == '/' then
        match CloseTagAt(s, q, name)
        case None => Fail
        case Some(t) => Ok(acc, t)
      else
        match TagAt(s, p)
        case Fail => Fail
        case Ok(child, e) => ContentAt(s, e, name, acc + [child])
    else
      match Extract(s, p, Lt)
      case None => Fail
      case Some((text, e)) => ContentAt(s, e, name, acc + [Text(Unescape(text))])
  }

  /**
   * `XML_parse`: one element at the start of the input, after which the input
   * must end; anything after it, even white space, makes the document invalid.
   */
  function DocumentOf(s: string): Document
  {
    match TagAt(s, 0)
    case Fail => Invalid
    case Ok(root, e) => if At(s, e) != '\0' then Invalid else Valid(root)
  }
}
