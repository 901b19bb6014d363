/**
 * The document tree of xml.c.  A node is either text or an element with a
 * name, an ordered list of attributes and an ordered list of children; the
 * source tells the two apart through the `is_str` pun of its `XML` union,
 * here they are the two variants of a datatype.
 */
module Tree {
  import opened Chars

  datatype Option<T> = None | Some(value: T)

  /** One `XML_Attr`: a name and its raw (unescaped) value. */
  datatype Attr = Attr(name: string, value: string)

  /** An `XML` value: a text string or an `XML_Tag`. */
  datatype Node =
    | Text(text: string)
    | Element(name: string, attrs: seq<Attr>, children: seq<Node>)

  /**
   * The trees the parser produces and the serializer can reproduce: names
   * are valid names, text and attribute values hold no NUL, text children are
   * non-empty and no two text children are adjacent (the serialized forms of
   * adjacent texts would run together).
   */
  predicate WellFormed(n: Node)
    decreases n
  {
    match n
    case Text(t) => |t| > 0 && NoNul(t)
    case Element(name, attrs, children) =>
      ValidName(name)
      && (forall i :: 0 <= i < |attrs| ==> ValidName(attrs[i].name) && NoNul(attrs[i].value))
      && (forall i :: 0 <= i < |children| ==> WellFormed(children[i]))
      && NoAdjacentText(children)
  }

  predicate NoAdjacentText(children: seq<Node>)
  {
    forall i :: 0 <= i < |children| - 1 ==> !(children[i].Text? && children[i + 1].Text?)
  }

  /**
   * `XML_tag` with its variadic, NULL-terminated argument lists replaced by
   * two sequences: attribute pairs in order, then children in order.  It
   * performs no validation: the element is well formed exactly when the
   * arguments are.
   */
  function Build(name: string, attrs: seq<(string, string)>, children: seq<Node>): (n: Node)
    ensures n.Element? && n.name == name && n.children == children
    ensures |n.attrs| == |attrs|
    ensures forall i :: 0 <= i < |attrs| ==> n.attrs[i].name == attrs[i].0 && n.attrs[i].value == attrs[i].1
    ensures WellFormed(n) <==>
      ValidName(name)
      && (forall i :: 0 <= i < |attrs| ==> ValidName(attrs[i].0) && NoNul(attrs[i].1))
      && (forall i :: 0 <= i < |children| ==> WellFormed(children[i]))
      && NoAdjacentText(children)
  {
    Element(name, seq(|attrs|, i requires 0 <= i < |attrs| => Attr(attrs[i].0, attrs[i].1)), children)
  }

  /**
   * `XML_get_attr`: scans the attributes in order and returns the value of the
   * first one named `name`, or nothing when none is.
   */
  method GetAttr(n: Node, name: string) returns (r: Option<string>)
    requires n.Element?
    ensures r.None? <==> forall i :: 0 <= i < |n.attrs| ==> n.attrs[i].name != name
    ensures r.Some? ==>
      (exists i :: 0 <= i < |n.attrs| && n.attrs[i] == Attr(name, r.value)
        && forall j :: 0 <= j < i ==> n.attrs[j].name != name)
  {
    var i := 0;
    while i < |n.attrs|
      invariant 0 <= i <= |n.attrs|
      invariant forall j :: 0 <= j < i ==> n.attrs[j].name != name
    {
      if n.attrs[i].name == name {
        return Some(n.attrs[i].value);
      }
      i := i + 1;
    }
    return None;
  }

  /**
   * `XML_get_child`: scans the children in order, skipping text, and returns
   * the first element named `name`, or nothing when none is.
   */
  method GetChild(n: Node, name: string) returns (r: Option<Node>)
    requires n.Element?
    ensures r.None? <==> forall i :: 0 <= i < |n.children| ==> !(n.children[i].Element? && n.children[i].name == name)
    ensures r.Some? ==> r.value.Element? && r.value.name == name
    ensures r.Some? ==>
      (exists i :: 0 <= i < |n.children| && n.children[i] == r.value
        && forall j :: 0 <= j < i ==> !(n.children[j].Element? && n.children[j].name == name))
  {
    var i := 0;
    while i < |n.children|
      invariant 0 <= i <= |n.children|
      invariant forall j :: 0 <= j < i ==> !(n.children[j].Element? && n.children[j].name == name)
    {
      if !n.children[i].Text? {
        if n.children[i].name == name {
          return Some(n.children[i]);
        }
      }
      i := i + 1;
    }
    return None;
  }
}
