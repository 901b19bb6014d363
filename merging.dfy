/**
 * Adjacent text children.  `XML_tag` accepts any children, among them two
 * texts in a row; `XML_as_text` writes them one after the other, so the
 * parser reads them back as a single text.  `Normalize` merges adjacent texts;
 * every tree with valid names, no NUL and no empty text is written exactly
 * like its normal form, and reads back as it.
 */
module Merging {
  import opened Chars
  import opened Tree
  import opened Entities
  import opened Serializer
  import opened Grammar
  import RoundTrip
  import Memory

  /** What `WellFormed` asks of a tree, except that texts may stand next to each other. */
  predicate Clean(n: Node)
    decreases n
  {
    match n
    case Text(t) => |t| > 0 && NoNul(t)
    case Element(name, attrs, children) =>
      ValidName(name)
      && (forall i :: 0 <= i < |attrs| ==> ValidName(attrs[i].name) && NoNul(attrs[i].value))
      && (forall i :: 0 <= i < |children| ==> Clean(children[i]))
  }

  /** `c` put in front of `rest`, merged with it when both start with text. */
  function JoinText(c: Node, rest: seq<Node>): seq<Node>
  {
    if c.Text? && rest != [] && rest[0].Text? then [Text(c.text + rest[0].text)] + rest[1..]
    else [c] + rest
  }

  /** The tree with every run of adjacent text children merged into one text, at every level. */
  function Normalize(n: Node): Node
    decreases n, 1
  {
    match n
    case Text(_) => n
    case Element(name, attrs, children) => Element(name, attrs, NormalizeChildren(children))
  }

  function NormalizeChildren(children: seq<Node>): seq<Node>
    decreases children, 0
  {
    if children == [] then [] else JoinText(Normalize(children[0]), NormalizeChildren(children[1..]))
  }

  /** The children `[c] + rest` are written as `c`, then `rest`. */
  lemma ConsWrites(c: Node, rest: seq<Node>)
    ensures ChildrenText([c] + rest) == Serialize(c) + ChildrenText(rest)
  {
    assert ([c] + rest)[0] == c && ([c] + rest)[1..] == rest;
  }

  /** Two texts merged into one are written as the two one after the other. */
  lemma MergedWrites(x: string, y: string, tail: seq<Node>)
    ensures ChildrenText([Text(x + y)] + tail) == ChildrenText([Text(x)] + ([Text(y)] + tail))
  {
    var t, ex, ey := ChildrenText(tail), Escape(x), Escape(y);
    ConsWrites(Text(y), tail);
    ConsWrites(Text(x), [Text(y)] + tail);
    ConsWrites(Text(x + y), tail);
    EscapeAppend(x, y);
    Memory.Assoc(ex, ey, t);
  }

  /** Merging two texts does not change what is written: escaping goes character by character. */
  lemma JoinTextWrites(c: Node, rest: seq<Node>)
    ensures ChildrenText(JoinText(c, rest)) == Serialize(c) + ChildrenText(rest)
  {
    if c.Text? && rest != [] && rest[0].Text? {
      MergedWrites(c.text, rest[0].text, rest[1..]);
      assert [rest[0]] + rest[1..] == rest;
    }
    ConsWrites(c, rest);
  }

  /** A node is written exactly like its normal form. */
  lemma {:induction false} NormalizeWrites(n: Node)
    ensures Serialize(Normalize(n)) == Serialize(n)
    decreases n, 1
  {
    if n.Element? {
      NormalizeChildrenWrite(n.children);
    }
  }

  /** Children are written exactly like their normal form, which is empty only when they are. */
  lemma {:induction false} NormalizeChildrenWrite(children: seq<Node>)
    ensures ChildrenText(NormalizeChildren(children)) == ChildrenText(children)
    ensures NormalizeChildren(children) == [] <==> children == []
    decreases children, 0
  {
    if children != [] {
      NormalizeWrites(children[0]);
      NormalizeChildrenWrite(children[1..]);
      JoinTextWrites(Normalize(children[0]), NormalizeChildren(children[1..]));
    }
  }

  /** Putting a well-formed child in front of well-formed children, merging texts, keeps them well formed. */
  lemma JoinTextWellFormed(c: Node, rest: seq<Node>)
    requires WellFormed(c)
    requires forall i :: 0 <= i < |rest| ==> WellFormed(rest[i])
    requires NoAdjacentText(rest)
    ensures forall i :: 0 <= i < |JoinText(c, rest)| ==> WellFormed(JoinText(c, rest)[i])
    ensures NoAdjacentText(JoinText(c, rest))
  {
    var r := JoinText(c, rest);
    if c.Text? && rest != [] && rest[0].Text? {
      var m := Text(c.text + rest[0].text);
      assert WellFormed(m);
      forall i | 0 <= i < |r|
        ensures WellFormed(r[i])
      {
        if i > 0 {
          assert r[i] == rest[i];
        }
      }
      forall i | 0 <= i < |r| - 1
        ensures !(r[i].Text? && r[i + 1].Text?)
      {
        assert r[i + 1] == rest[i + 1];
        if i > 0 {
          assert r[i] == rest[i];
        }
      }
    } else {
      forall i | 0 <= i < |r|
        ensures WellFormed(r[i])
      {
        if i > 0 {
          assert r[i] == rest[i - 1];
        }
      }
      forall i | 0 <= i < |r| - 1
        ensures !(r[i].Text? && r[i + 1].Text?)
      {
        assert r[i + 1] == rest[i];
        if i > 0 {
          assert r[i] == rest[i - 1];
        }
      }
    }
  }

  /** The normal form of a clean tree is well formed, and an element stays an element. */
  lemma {:induction false} NormalizeWellFormed(n: Node)
    requires Clean(n)
    ensures WellFormed(Normalize(n)) && Normalize(n).Element? == n.Element?
    decreases n, 1
  {
    if n.Element? {
      NormalizeChildrenWellFormed(n.children);
    }
  }

  lemma {:induction false} NormalizeChildrenWellFormed(children: seq<Node>)
    requires forall i :: 0 <= i < |children| ==> Clean(children[i])
    ensures forall i :: 0 <= i < |NormalizeChildren(children)| ==> WellFormed(NormalizeChildren(children)[i])
    ensures NoAdjacentText(NormalizeChildren(children))
    decreases children, 0
  {
    if children != [] {
      NormalizeWellFormed(children[0]);
      NormalizeChildrenWellFormed(children[1..]);
      JoinTextWellFormed(Normalize(children[0]), NormalizeChildren(children[1..]));
    }
  }

  /** A well-formed tree is clean and is its own normal form. */
  lemma {:induction false} NormalizeKeepsWellFormed(n: Node)
    requires WellFormed(n)
    ensures Clean(n) && Normalize(n) == n
    decreases n, 1
  {
    if n.Element? {
      NormalizeChildrenKeep(n.children);
    }
  }

  lemma {:induction false} NormalizeChildrenKeep(children: seq<Node>)
    requires forall i :: 0 <= i < |children| ==> WellFormed(children[i])
    requires NoAdjacentText(children)
    ensures forall i :: 0 <= i < |children| ==> Clean(children[i])
    ensures NormalizeChildren(children) == children
    decreases children, 0
  {
    if children != [] {
      NormalizeKeepsWellFormed(children[0]);
      RoundTrip.RestWellFormed(children);
      NormalizeChildrenKeep(children[1..]);
      assert children == [children[0]] + children[1..];
      assert children[1..] == [] || !(children[0].Text? && children[1..][0].Text?);
    }
  }

  /**
   * `XML_parse(XML_as_text(n))` for every clean element `n`: the document is
   * valid, its root is `n` with adjacent texts merged, and that root is written
   * exactly as `n` was.  For a well-formed `n` the root is `n` itself.
   */
  lemma SerializeThenParseMerged(n: Node)
    requires n.Element? && Clean(n)
    ensures DocumentOf(Serialize(n)) == Valid(Normalize(n))
    ensures Serialize(Normalize(n)) == Serialize(n)
    ensures WellFormed(n) ==> Normalize(n) == n
  {
    NormalizeWrites(n);
    NormalizeWellFormed(n);
    RoundTrip.SerializeThenParse(Normalize(n));
    if WellFormed(n) {
      NormalizeKeepsWellFormed(n);
    }
  }

  /**
   * An element built by `XML_tag` from valid names, values without NUL and
   * clean children reads back as itself with adjacent texts merged, and is
   * written the same either way; with no adjacent texts it reads back as itself.
   */
  lemma BuildThenParse(name: string, attrs: seq<(string, string)>, children: seq<Node>)
    requires ValidName(name)
    requires forall i :: 0 <= i < |attrs| ==> ValidName(attrs[i].0) && NoNul(attrs[i].1)
    requires forall i :: 0 <= i < |children| ==> Clean(children[i])
    ensures DocumentOf(Serialize(Build(name, attrs, children))) == Valid(Normalize(Build(name, attrs, children)))
    ensures Serialize(Normalize(Build(name, attrs, children))) == Serialize(Build(name, attrs, children))
    ensures (forall i :: 0 <= i < |children| ==> WellFormed(children[i])) && NoAdjacentText(children) ==>
      DocumentOf(Serialize(Build(name, attrs, children))) == Valid(Build(name, attrs, children))
  {
    var b := Build(name, attrs, children);
    assert Clean(b);
    SerializeThenParseMerged(b);
  }
}
