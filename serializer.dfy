/**
 * The serializer of xml.c: `XML_as_text` and the element branch of
 * `XML_strlen`.  An element is written as `<name a="v"...>children</name>`,
 * or as `<name a="v".../>` when it has no children; text and attribute values
 * are escaped, names are written as they are.
 */
module Serializer {
  import opened Tree
  import opened Entities
  import Memory

  /** One attribute as `XML_as_text` writes it: ` name="escaped value"`. */
  function AttrText(a: Attr): string
  {
    " " + a.name + "=\"" + Escape(a.value) + "\""
  }

  /** The attributes of an element, in order. */
  function AttrsText(attrs: seq<Attr>): string
  {
    if attrs == [] then "" else AttrText(attrs[0]) + AttrsText(attrs[1..])
  }

  /** What follows the attributes: `/>`, or `>` then the children then `</name>`. */
  function CloseText(name: string, children: seq<Node>): string
    decreases children, 1
  {
    if children == [] then "/>" else ">" + ChildrenText(children) + "</" + name + ">"
  }

  /** `XML_as_text`: the text of a node. */
  function Serialize(n: Node): string
    decreases n
  {
    match n
    case Text(t) => Escape(t)
    case Element(name, attrs, children) => "<" + name + AttrsText(attrs) + CloseText(name, children)
  }

  /** The children of an element, each serialized, one after the other. */
  function ChildrenText(children: seq<Node>): string
    decreases children, 0
  {
    if children == [] then "" else Serialize(children[0]) + ChildrenText(children[1..])
  }

  /**
   * The count `XML_strlen` makes for an element: 3 plus the name for a
   * childless element, 5 plus twice the name plus the children otherwise, then
   * for each attribute 4 plus its name plus its escaped value.
   */
  function Measure(n: Node): nat
    decreases n
  {
    match n
    case Text(t) => EscapedLength(t)
    case Element(name, attrs, children) =>
      (if children == [] then 3 + |name| else 5 + 2 * |name| + ChildrenMeasure(children))
      + AttrsMeasure(attrs)
  }

  function ChildrenMeasure(children: seq<Node>): nat
    decreases children
  {
    if children == [] then 0 else Measure(children[0]) + ChildrenMeasure(children[1..])
  }

  function AttrsMeasure(attrs: seq<Attr>): nat
  {
    if attrs == [] then 0 else 4 + |attrs[0].name| + EscapedLength(attrs[0].value) + AttrsMeasure(attrs[1..])
  }

  /** The attribute part of the count is the length of the attribute text. */
  lemma {:induction false} AttrsMeasureIsLength(attrs: seq<Attr>)
    ensures AttrsMeasure(attrs) == |AttrsText(attrs)|
  {
    if attrs != [] {
      AttrsMeasureIsLength(attrs[1..]);
    }
  }

  /** `XML_strlen` counts exactly the characters `XML_as_text` writes. */
  lemma {:induction false} MeasureIsLength(n: Node)
    ensures Measure(n) == |Serialize(n)|
    decreases n
  {
    match n
    case Text(t) =>
    case Element(name, attrs, children) =>
      AttrsMeasureIsLength(attrs);
      if children != [] {
        ChildrenMeasureIsLength(children);
      }
  }

  lemma {:induction false} ChildrenMeasureIsLength(children: seq<Node>)
    ensures ChildrenMeasure(children) == |ChildrenText(children)|
    decreases children
  {
    if children != [] {
      MeasureIsLength(children[0]);
      ChildrenMeasureIsLength(children[1..]);
    }
  }

  /** Serializing attributes distributes over concatenation. */
  lemma {:induction false} AttrsAppend(a: seq<Attr>, b: seq<Attr>)
    ensures AttrsText(a + b) == AttrsText(a) + AttrsText(b)
  {
    if a == [] {
      assert a + b == b;
    } else {
      assert (a + b)[1..] == a[1..] + b;
      AttrsAppend(a[1..], b);
    }
  }

  /** Serializing children distributes over concatenation. */
  lemma {:induction false} ChildrenAppend(a: seq<Node>, b: seq<Node>)
    ensures ChildrenText(a + b) == ChildrenText(a) + ChildrenText(b)
  {
    if a == [] {
      assert a + b == b;
    } else {
      assert (a + b)[1..] == a[1..] + b;
      ChildrenAppend(a[1..], b);
    }
  }

  /**
   * `XML_strlen`: for text, the escaped length; for an element, the
   * children's counts by recursion, then the attributes.  That this count is
   * the length of the text `XML_as_text` writes is `MeasureIsLength`.
   */
  method Strlen(n: Node) returns (r: nat)
    ensures r == Measure(n)
    decreases n, 1
  {
    if n.Text? {
      r := EscapedLen(n.text);
      return;
    }
    if |n.children| > 0 {
      var c := ChildrenStrlen(n.children);
      r := 5 + 2 * |n.name| + c;
    } else {
      r := 3 + |n.name|;
    }
    var a := AttrsStrlen(n.attrs);
    r := r + a;
  }

  /** The children loop of `XML_strlen`. */
  method ChildrenStrlen(children: seq<Node>) returns (r: nat)
    ensures r == ChildrenMeasure(children)
    decreases children, 0
  {
    r := 0;
    var i := 0;
    while i < |children|
      invariant 0 <= i <= |children|
      invariant r + ChildrenMeasure(children[i..]) == ChildrenMeasure(children)
    {
      assert children[i..][1..] == children[i + 1..];
      var c := Strlen(children[i]);
      r := r + c;
      i := i + 1;
    }
  }

  /** The attribute loop of `XML_strlen`: 4 plus the name plus the escaped value per attribute. */
  method AttrsStrlen(attrs: seq<Attr>) returns (r: nat)
    ensures r == AttrsMeasure(attrs)
  {
    r := 0;
    var i := 0;
    while i < |attrs|
      invariant 0 <= i <= |attrs|
      invariant r + AttrsMeasure(attrs[i..]) == AttrsMeasure(attrs)
    {
      assert attrs[i..][1..] == attrs[i + 1..];
      r := r + 4;
      r := r + |attrs[i].name|;
      var v := EscapedLen(attrs[i].value);
      r := r + v;
      i := i + 1;
    }
  }

  /** `AttrText(a)` after `w`, split into the pieces the attribute loop writes one by one. */
  lemma AttrTextAfter(w: string, a: Attr)
    ensures w + AttrText(a) == w + [' '] + a.name + ['='] + ['"'] + Escape(a.value) + ['"']
  {
  }

  /** One more attribute: the text of the first `i + 1` attributes and the count of the rest. */
  lemma AttrsSnoc(attrs: seq<Attr>, i: nat)
    requires i < |attrs|
    ensures AttrsText(attrs[..i + 1]) == AttrsText(attrs[..i]) + AttrText(attrs[i])
    ensures AttrsMeasure(attrs[i..]) == 4 + |attrs[i].name| + EscapedLength(attrs[i].value) + AttrsMeasure(attrs[i + 1..])
  {
    assert attrs[i..][1..] == attrs[i + 1..];
    assert attrs[..i + 1] == attrs[..i] + [attrs[i]];
    AttrsAppend(attrs[..i], [attrs[i]]);
    assert AttrsText([attrs[i]]) == AttrText(attrs[i]) + AttrsText([]);
  }

  /** One more child: the text of the first `i + 1` children and the count of the rest. */
  lemma ChildrenSnoc(children: seq<Node>, i: nat)
    requires i < |children|
    ensures ChildrenText(children[..i + 1]) == ChildrenText(children[..i]) + Serialize(children[i])
    ensures ChildrenMeasure(children[i..]) == Measure(children[i]) + ChildrenMeasure(children[i + 1..])
  {
    assert children[i..][1..] == children[i + 1..];
    assert children[..i + 1] == children[..i] + [children[i]];
    ChildrenAppend(children[..i], [children[i]]);
    assert ChildrenText([children[i]]) == Serialize(children[i]) + ChildrenText([]);
  }

  /** The start of one pass of the attribute loop of `XML_as_text`: writes ` name="` at `ri`. */
  method WriteAttrHead(r: array<char>, ri: nat, name: string) returns (next: nat)
    requires ri + 3 + |name| <= r.Length
    modifies r
    ensures next == ri + 3 + |name|
    ensures r[..next] == old(r[..ri]) + [' '] + name + ['='] + ['"']
    ensures forall k :: next <= k < r.Length ==> r[k] == old(r[k])
  {
    ghost var w := r[..ri];
    Memory.Store(r, ri, ' ');
    Memory.Copy(r, ri + 1, name);
    w := w + [' '] + name;
    assert r[..ri + 1 + |name|] == w;
    Memory.Store(r, ri + 1 + |name|, '=');
    Memory.Store(r, ri + 2 + |name|, '"');
    next := ri + 3 + |name|;
  }

  /** One pass of the attribute loop of `XML_as_text`: writes ` name="value"` at `ri`. */
  method WriteAttr(r: array<char>, ri: nat, a: Attr) returns (next: nat)
    requires ri + 4 + |a.name| + EscapedLength(a.value) <= r.Length
    modifies r
    ensures next == ri + 4 + |a.name| + EscapedLength(a.value)
    ensures r[..next] == old(r[..ri]) + AttrText(a)
    ensures forall k :: next <= k < r.Length ==> r[k] == old(r[k])
  {
    AttrTextAfter(r[..ri], a);
    next := WriteAttrHead(r, ri, a.name);
    var value := EscapeString(a.value);
    Memory.Copy(r, next, value);
    Memory.Store(r, next + |value|, '"');
    next := next + |value| + 1;
  }

  /** The attribute loop of `XML_as_text`. */
  method WriteAttrs(r: array<char>, at: nat, attrs: seq<Attr>) returns (next: nat)
    requires at + AttrsMeasure(attrs) <= r.Length
    modifies r
    ensures next == at + AttrsMeasure(attrs)
    ensures r[..next] == old(r[..at]) + AttrsText(attrs)
    ensures forall k :: next <= k < r.Length ==> r[k] == old(r[k])
  {
    next := at;
    ghost var p := r[..at];
    var i := 0;
    while i < |attrs|
      invariant 0 <= i <= |attrs|
      invariant at <= next
      invariant next + AttrsMeasure(attrs[i..]) == at + AttrsMeasure(attrs)
      invariant r[..next] == p + AttrsText(attrs[..i])
      invariant forall k :: next <= k < r.Length ==> r[k] == old(r[k])
    {
      AttrsSnoc(attrs, i);
      next := WriteAttr(r, next, attrs[i]);
      Memory.Assoc(p, AttrsText(attrs[..i]), AttrText(attrs[i]));
      i := i + 1;
    }
    assert attrs[..i] == attrs;
  }

  /** One pass of the children loop of `XML_as_text`: the child's text, copied in at `at`. */
  method WriteChild(r: array<char>, at: nat, child: Node) returns (next: nat)
    requires at + Measure(child) <= r.Length
    modifies r
    ensures next == at + Measure(child)
    ensures r[..next] == old(r[..at]) + Serialize(child)
    ensures forall k :: next <= k < r.Length ==> r[k] == old(r[k])
    decreases child, 5
  {
    MeasureIsLength(child);
    var content := AsText(child);
    Memory.Copy(r, at, content);
    next := at + |content|;
  }

  /** The children loop of `XML_as_text`: each child's text, copied in order. */
  method WriteChildren(r: array<char>, at: nat, children: seq<Node>) returns (next: nat)
    requires at + ChildrenMeasure(children) <= r.Length
    modifies r
    ensures next == at + ChildrenMeasure(children)
    ensures r[..next] == old(r[..at]) + ChildrenText(children)
    ensures forall k :: next <= k < r.Length ==> r[k] == old(r[k])
    decreases children, 0
  {
    next := at;
    ghost var p := r[..at];
    var i := 0;
    while i < |children|
      invariant 0 <= i <= |children|
      invariant at <= next
      invariant next + ChildrenMeasure(children[i..]) == at + ChildrenMeasure(children)
      invariant r[..next] == p + ChildrenText(children[..i])
      invariant forall k :: next <= k < r.Length ==> r[k] == old(r[k])
    {
      ChildrenSnoc(children, i);
      next := WriteChild(r, next, children[i]);
      Memory.Assoc(p, ChildrenText(children[..i]), Serialize(children[i]));
      i := i + 1;
    }
    assert children[..i] == children;
  }

  /** The end of a non-empty element in `XML_as_text`: writes `</name>` at `ri`. */
  method WriteEndTag(r: array<char>, ri: nat, name: string) returns (next: nat)
    requires ri + 3 + |name| <= r.Length
    modifies r
    ensures next == ri + 3 + |name|
    ensures r[..next] == old(r[..ri]) + ['<'] + ['/'] + name + ['>']
    ensures forall k :: next <= k < r.Length ==> r[k] == old(r[k])
  {
    ghost var w := r[..ri];
    Memory.Store(r, ri, '<');
    Memory.Store(r, ri + 1, '/');
    Memory.Copy(r, ri + 2, name);
    w := w + ['<'] + ['/'] + name;
    assert r[..ri + 2 + |name|] == w;
    Memory.Store(r, ri + 2 + |name|, '>');
    next := ri + 3 + |name|;
  }

  /** The start of an element in `XML_as_text`: writes `<name` and the attributes at `at`. */
  method WriteStartTag(r: array<char>, at: nat, name: string, attrs: seq<Attr>) returns (next: nat)
    requires at + 1 + |name| + AttrsMeasure(attrs) <= r.Length
    modifies r
    ensures next == at + 1 + |name| + AttrsMeasure(attrs)
    ensures r[..next] == old(r[..at]) + ['<'] + name + AttrsText(attrs)
    ensures forall k :: next <= k < r.Length ==> r[k] == old(r[k])
  {
    ghost var w := r[..at];
    Memory.Store(r, at, '<');
    Memory.Copy(r, at + 1, name);
    w := w + ['<'] + name;
    assert r[..at + 1 + |name|] == w;
    next := WriteAttrs(r, at + 1 + |name|, attrs);
  }

  /** The rest of a non-empty element in `XML_as_text`: writes `>`, the children and `</name>` at `at`. */
  method WriteContent(r: array<char>, at: nat, name: string, children: seq<Node>) returns (next: nat)
    requires at + 4 + |name| + ChildrenMeasure(children) <= r.Length
    modifies r
    ensures next == at + 4 + |name| + ChildrenMeasure(children)
    ensures r[..next] == old(r[..at]) + ['>'] + ChildrenText(children) + ['<'] + ['/'] + name + ['>']
    ensures forall k :: next <= k < r.Length ==> r[k] == old(r[k])
    decreases children, 1
  {
    ghost var w := r[..at];
    Memory.Store(r, at, '>');
    w := w + ['>'];
    next := WriteChildren(r, at + 1, children);
    w := w + ChildrenText(children);
    assert r[..next] == w;
    next := WriteEndTag(r, next, name);
  }

  /** The end of a childless element in `XML_as_text`: writes `/>` at `ri`. */
  method WriteEmptyEnd(r: array<char>, ri: nat) returns (next: nat)
    requires ri + 2 <= r.Length
    modifies r
    ensures next == ri + 2
    ensures r[..next] == old(r[..ri]) + ['/'] + ['>']
    ensures forall k :: next <= k < r.Length ==> r[k] == old(r[k])
  {
    Memory.Store(r, ri, '/');
    Memory.Store(r, ri + 1, '>');
    next := ri + 2;
  }

  /** What follows the attributes, in the pieces `XML_as_text` writes. */
  lemma CloseTextPieces(w: string, name: string, children: seq<Node>)
    ensures children == [] ==> w + CloseText(name, children) == w + ['/'] + ['>']
    ensures children != [] ==>
      w + CloseText(name, children) == w + ['>'] + ChildrenText(children) + ['<'] + ['/'] + name + ['>']
  {
  }

  /** The end of an element in `XML_as_text`: `/>`, or `>`, the children and `</name>`. */
  method WriteEnd(r: array<char>, at: nat, name: string, children: seq<Node>) returns (next: nat)
    requires at + (if children == [] then 2 else 4 + |name| + ChildrenMeasure(children)) <= r.Length
    modifies r
    ensures next == at + (if children == [] then 2 else 4 + |name| + ChildrenMeasure(children))
    ensures r[..next] == old(r[..at]) + CloseText(name, children)
    ensures forall k :: next <= k < r.Length ==> r[k] == old(r[k])
    decreases children, 2
  {
    CloseTextPieces(r[..at], name, children);
    if |children| > 0 {
      next := WriteContent(r, at, name, children);
    } else {
      next := WriteEmptyEnd(r, at);
    }
  }

  /**
   * `XML_as_text`: text is escaped; an element is written into a buffer of
   * exactly `XML_strlen` characters, which it fills completely.
   */
  method AsText(n: Node) returns (out: string)
    ensures out == Serialize(n)
    decreases n, 4
  {
    if n.Text? {
      out := EscapeString(n.text);
    } else {
      out := ElementAsText(n);
    }
  }

  /** The element branch of `XML_as_text`. */
  method ElementAsText(n: Node) returns (out: string)
    requires n.Element?
    ensures out == Serialize(n)
    decreases n, 3
  {
    var len := Strlen(n);
    var r := new char[len];
    var ri := WriteStartTag(r, 0, n.name, n.attrs);
    ghost var head := ['<'] + n.name + AttrsText(n.attrs);
    assert r[..ri] == head;
    ri := WriteEnd(r, ri, n.name, n.children);
    assert r[..ri] == head + CloseText(n.name, n.children);
    assert ri == r.Length;
    out := r[..];
  }
}
