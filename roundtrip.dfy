/**
 * The parser of xml.c reads back what its serializer writes: for every
 * well-formed element `n`, `XML_parse(XML_as_text(n))` rebuilds `n`, and
 * nothing may follow the text.  The proofs walk the serialized text piece by
 * piece, following the grammar branch by branch.
 */
module RoundTrip {
  import opened Chars
  import opened Tree
  import opened Entities
  import opened Scanner
  import opened Grammar
  import opened Serializer
  import Shape

  /** `x` occurs in `s` at offset `p`. */
  predicate HasAt(s: string, p: nat, x: string)
  {
    p + |x| <= |s| && forall k :: 0 <= k < |x| ==> s[p + k] == x[k]
  }

  lemma CharAt(s: string, p: nat, x: string, k: nat)
    requires HasAt(s, p, x) && k < |x|
    ensures At(s, p + k) == x[k]
  {
  }

  lemma HasAtSplit(s: string, p: nat, x: string, y: string, q: nat)
    requires HasAt(s, p, x + y) && q == p + |x|
    ensures HasAt(s, p, x) && HasAt(s, p + |x|, y) && HasAt(s, q, y)
  {
    forall k | 0 <= k < |x|
      ensures s[p + k] == x[k]
    {
      assert (x + y)[k] == x[k];
    }
    forall k | 0 <= k < |y|
      ensures s[p + |x| + k] == y[k]
    {
      assert (x + y)[|x| + k] == y[k];
    }
  }

  /** Scanning with `f` passes over a stretch that holds no NUL and nothing `f` accepts. */
  lemma {:induction false} ScanOver(s: string, p: nat, x: string, f: Stop)
    requires HasAt(s, p, x)
    requires forall k :: 0 <= k < |x| ==> x[k] != '\0' && !Stops(f, x[k])
    ensures ScanUntil(s, p, f) == ScanUntil(s, p + |x|, f)
    decreases |x|
  {
    if |x| > 0 {
      CharAt(s, p, x, 0);
      assert x == x[..1] + x[1..];
      HasAtSplit(s, p, x[..1], x[1..], p + |x[..1]|);
      ScanOver(s, p + 1, x[1..], f);
    }
  }

  /** Extraction at `p` returns exactly `x` when `x` is followed by a character `f` accepts. */
  lemma ExtractExact(s: string, p: nat, x: string, f: Stop)
    requires HasAt(s, p, x)
    requires forall k :: 0 <= k < |x| ==> x[k] != '\0' && !Stops(f, x[k])
    requires Stops(f, At(s, p + |x|))
    ensures Extract(s, p, f) == Some((x, p + |x|))
  {
    ScanOver(s, p, x, f);
    assert s[p..p + |x|] == x by {
      forall k | 0 <= k < |x|
        ensures s[p..p + |x|][k] == x[k]
      {
        assert s[p..p + |x|][k] == s[p + k];
      }
    }
  }

  /** Escaped text holds no NUL, no `"` and no `<`, so the value and text scans pass over it. */
  lemma EscapedStops(v: string, f: Stop)
    requires NoNul(v) && f != NameEnd
    ensures forall k :: 0 <= k < |Escape(v)| ==> Escape(v)[k] != '\0' && !Stops(f, Escape(v)[k])
  {
    EscapeAvoidsDelimiters(v);
    forall k | 0 <= k < |Escape(v)|
      ensures Escape(v)[k] != '\0' && !Stops(f, Escape(v)[k])
    {
      assert Escape(v)[k] !in "<>\"";
    }
  }

  /** Extraction returns `x`, which unescapes to `v`, when `x` is followed by a character `f` accepts. */
  lemma ExtractDecoded(s: string, p: nat, x: string, f: Stop, v: string)
    requires HasAt(s, p, x)
    requires forall k :: 0 <= k < |x| ==> x[k] != '\0' && !Stops(f, x[k])
    requires Stops(f, At(s, p + |x|)) && Unescape(x) == v
    ensures Extract(s, p, f).Some? && Extract(s, p, f).value.1 == p + |x|
    ensures Unescape(Extract(s, p, f).value.0) == v
  {
    ExtractExact(s, p, x, f);
  }

  /** A valid name extracts as itself when a character that ends names follows it. */
  lemma ExtractName(s: string, p: nat, name: string)
    requires HasAt(s, p, name) && ValidName(name)
    requires IsntNameChar(At(s, p + |name|))
    ensures Extract(s, p, NameEnd) == Some((name, p + |name|))
    ensures IsNameChar(At(s, p))
  {
    ExtractExact(s, p, name, NameEnd);
    CharAt(s, p, name, 0);
  }

  /** The close-tag comparison runs to the end of the name when the name is there. */
  lemma {:induction false} CloseMatches(s: string, r: nat, name: string, i: nat)
    requires HasAt(s, r, name) && i <= |name|
    ensures CloseMismatch(s, r, name, i) == |name|
    decreases |name| - i
  {
    if i < |name| {
      CharAt(s, r, name, i);
      CloseMatches(s, r, name, i + 1);
    }
  }

  /**
   * Where the pieces of ` name="escaped value"` stand: the name at `n`, the
   * escaped value at `q`, the closing quote at `e`.
   */
  lemma AttrPieces(s: string, p: nat, a: Attr, n: nat, q: nat, e: nat)
    requires HasAt(s, p, AttrText(a))
    requires n == p + 1 && q == n + |a.name| + 2 && e == q + |Escape(a.value)|
    ensures p + |AttrText(a)| == e + 1
    ensures At(s, p) == ' ' && HasAt(s, n, a.name)
    ensures At(s, n + |a.name|) == '=' && At(s, n + |a.name| + 1) == '"'
    ensures HasAt(s, q, Escape(a.value)) && At(s, e) == '"'
  {
    var x1 := " " + a.name;
    var x2 := x1 + "=\"";
    var x3 := x2 + Escape(a.value);
    HasAtSplit(s, p, x3, "\"", p + |x3|);
    HasAtSplit(s, p, x2, Escape(a.value), p + |x2|);
    HasAtSplit(s, p, x1, "=\"", p + |x1|);
    HasAtSplit(s, p, " ", a.name, p + |" "|);
    CharAt(s, p, " ", 0);
    CharAt(s, p + |x1|, "=\"", 0);
    CharAt(s, p + |x1|, "=\"", 1);
    CharAt(s, p + |x3|, "\"", 0);
  }

  /**
   * Escaped text followed by a character `f` stops at is extracted up to that
   * character, and unescapes back to the text.
   */
  lemma ValueReads(s: string, p: nat, v: string, f: Stop)
    requires NoNul(v) && f != NameEnd
    requires HasAt(s, p, Escape(v)) && Stops(f, At(s, p + |Escape(v)|))
    ensures Extract(s, p, f).Some? && Extract(s, p, f).value.1 == p + |Escape(v)|
    ensures Unescape(Extract(s, p, f).value.0) == v
  {
    EscapedStops(v, f);
    UnescapeEscape(v);
    ExtractDecoded(s, p, Escape(v), f, v);
  }

  /** `AttrAt` reads `name="value"` from the cursor state the reader expects. */
  lemma AttrAtWhen(s: string, n: nat, name: string, v: string, q: nat, e: nat)
    requires n <= |s| && |name| > 0 && q == n + |name| + 2
    requires Extract(s, n, NameEnd) == Some((name, n + |name|))
    requires At(s, n + |name|) == '=' && At(s, n + |name| + 1) == '"' && q <= |s|
    requires Extract(s, q, Quote).Some? && Extract(s, q, Quote).value.1 == e
    requires Unescape(Extract(s, q, Quote).value.0) == v && At(s, e) == '"'
    ensures AttrAt(s, n) == Ok(Attr(name, v), e + 1)
  {
    assert SkipWs(s, n + |name|) == n + |name|;
    assert SkipWs(s, n + |name| + 1) == n + |name| + 1;
  }

  /** `AttrAt` reads back an attribute laid out as the serializer writes it, name first at `n`. */
  lemma AttrTextAt(s: string, n: nat, a: Attr, q: nat, e: nat)
    requires ValidName(a.name) && NoNul(a.value)
    requires HasAt(s, n, a.name) && At(s, n + |a.name|) == '=' && At(s, n + |a.name| + 1) == '"'
    requires q == n + |a.name| + 2 && HasAt(s, q, Escape(a.value))
    requires e == q + |Escape(a.value)| && At(s, e) == '"'
    ensures IsNameChar(At(s, n)) && AttrAt(s, n) == Ok(a, e + 1)
  {
    ExtractName(s, n, a.name);
    ValueReads(s, q, a.value, Quote);
    AttrAtWhen(s, n, a.name, a.value, q, e);
  }

  /** One attribute written by the serializer reads back as itself. */
  lemma AttrRoundTrip(s: string, p: nat, a: Attr)
    requires HasAt(s, p, AttrText(a))
    requires ValidName(a.name) && NoNul(a.value)
    ensures SkipWs(s, p) == p + 1 && IsNameChar(At(s, p + 1))
    ensures AttrAt(s, p + 1) == Ok(a, p + |AttrText(a)|)
  {
    var n := p + 1;
    var q := n + |a.name| + 2;
    var e := q + |Escape(a.value)|;
    AttrPieces(s, p, a, n, q, e);
    AttrTextAt(s, n, a, q, e);
    assert SkipWs(s, p) == n;
  }

  /** Appending the first element, then the rest, appends them all. */
  lemma ConsAppend<T>(acc: seq<T>, xs: seq<T>)
    requires xs != []
    ensures (acc + [xs[0]]) + xs[1..] == acc + xs
  {
    assert xs == [xs[0]] + xs[1..];
  }

  /** The attribute loop reads one attribute at `p` and carries on after it. */
  lemma AttrsAtCons(s: string, p: nat, acc: seq<Attr>, a: Attr, e: nat)
    requires p <= |s| && IsNameChar(At(s, p))
    requires AttrAt(s, p) == Ok(a, e) && At(s, SkipWs(s, e)) != '\0'
    ensures AttrsAt(s, p, acc) == AttrsAt(s, SkipWs(s, e), acc + [a])
  {
  }

  /** The text of the first attribute, then the text of the others. */
  lemma AttrsTextSplit(s: string, p: nat, attrs: seq<Attr>)
    requires attrs != [] && HasAt(s, p, AttrsText(attrs))
    requires forall i :: 0 <= i < |attrs| ==> ValidName(attrs[i].name) && NoNul(attrs[i].value)
    ensures ValidName(attrs[0].name) && NoNul(attrs[0].value)
    ensures forall i :: 0 <= i < |attrs[1..]| ==> ValidName(attrs[1..][i].name) && NoNul(attrs[1..][i].value)
    ensures HasAt(s, p, AttrText(attrs[0]))
    ensures HasAt(s, p + |AttrText(attrs[0])|, AttrsText(attrs[1..]))
    ensures |AttrsText(attrs)| == |AttrText(attrs[0])| + |AttrsText(attrs[1..])|
  {
    HasAtSplit(s, p, AttrText(attrs[0]), AttrsText(attrs[1..]), p + |AttrText(attrs[0])|);
  }

  /** The loop reads the attribute the serializer wrote at `p`, and goes on after it. */
  lemma AttrHead(s: string, p: nat, a: Attr, acc: seq<Attr>, q: nat)
    requires HasAt(s, p, AttrText(a)) && ValidName(a.name) && NoNul(a.value)
    requires q == p + |AttrText(a)| && At(s, SkipWs(s, q)) != '\0'
    ensures SkipWs(s, p) == p + 1 && At(s, p + 1) != '\0'
    ensures AttrsAt(s, SkipWs(s, p), acc) == AttrsAt(s, SkipWs(s, q), acc + [a])
  {
    AttrRoundTrip(s, p, a);
    AttrsAtCons(s, p + 1, acc, a, q);
  }

  /**
   * The attributes written by the serializer are read back one by one, after
   * whatever the loop read before, when `/` or `>` follows them as it does in
   * an element.
   */
  lemma {:induction false} AttrsRoundTrip(s: string, p: nat, attrs: seq<Attr>, acc: seq<Attr>, e: nat)
    requires HasAt(s, p, AttrsText(attrs)) && e == p + |AttrsText(attrs)|
    requires forall i :: 0 <= i < |attrs| ==> ValidName(attrs[i].name) && NoNul(attrs[i].value)
    requires At(s, e) == '/' || At(s, e) == '>'
    ensures At(s, SkipWs(s, p)) != '\0'
    ensures AttrsAt(s, SkipWs(s, p), acc) == Ok(acc + attrs, e)
    decreases |attrs|, 1
  {
    if attrs == [] {
      assert SkipWs(s, p) == p;
      assert acc + attrs == acc;
    } else {
      AttrsConsRoundTrip(s, p, attrs, acc, e);
    }
  }

  /** The first attribute reads back, then the others by `AttrsRoundTrip`. */
  lemma {:induction false} AttrsConsRoundTrip(s: string, p: nat, attrs: seq<Attr>, acc: seq<Attr>, e: nat)
    requires attrs != [] && HasAt(s, p, AttrsText(attrs)) && e == p + |AttrsText(attrs)|
    requires forall i :: 0 <= i < |attrs| ==> ValidName(attrs[i].name) && NoNul(attrs[i].value)
    requires At(s, e) == '/' || At(s, e) == '>'
    ensures At(s, SkipWs(s, p)) != '\0'
    ensures AttrsAt(s, SkipWs(s, p), acc) == Ok(acc + attrs, e)
    decreases |attrs|, 0
  {
    var a := attrs[0];
    var q := p + |AttrText(a)|;
    AttrsTextSplit(s, p, attrs);
    AttrsRoundTrip(s, q, attrs[1..], acc + [a], e);
    AttrHead(s, p, a, acc, q);
    ConsAppend(acc, attrs);
  }

  /** Where the pieces of `<name attrs` and what closes the element stand. */
  lemma ElementPieces(s: string, p: nat, n: Node)
    requires n.Element? && HasAt(s, p, Serialize(n))
    ensures |Serialize(n)| == 1 + |n.name| + |AttrsText(n.attrs)| + |CloseText(n.name, n.children)|
    ensures At(s, p) == '<' && HasAt(s, p + 1, n.name)
    ensures HasAt(s, p + 1 + |n.name|, AttrsText(n.attrs))
    ensures HasAt(s, p + 1 + |n.name| + |AttrsText(n.attrs)|, CloseText(n.name, n.children))
  {
    var x1 := "<" + n.name;
    var x2 := x1 + AttrsText(n.attrs);
    HasAtSplit(s, p, x2, CloseText(n.name, n.children), p + |x2|);
    HasAtSplit(s, p, x1, AttrsText(n.attrs), p + |x1|);
    HasAtSplit(s, p, "<", n.name, p + |"<"|);
    CharAt(s, p, "<", 0);
  }

  /** What follows the attributes: `/>`, or `>` then the children and the close tag. */
  lemma ClosePieces(s: string, p: nat, name: string, children: seq<Node>)
    requires HasAt(s, p, CloseText(name, children))
    ensures children == [] ==> |CloseText(name, children)| == 2 && At(s, p) == '/' && At(s, p + 1) == '>'
    ensures children != [] ==>
      (|CloseText(name, children)| == 1 + |ChildrenText(children)| + 3 + |name|
       && At(s, p) == '>' && HasAt(s, p + 1, ChildrenText(children) + EndTag(name)))
  {
    if children == [] {
      CharAt(s, p, "/>", 0);
      CharAt(s, p, "/>", 1);
    } else {
      CloseTextIs(name, children);
      HasAtSplit(s, p, ">", ChildrenText(children) + EndTag(name), p + |">"|);
      CharAt(s, p, ">", 0);
    }
  }

  /** The close tag `</name>`. */
  function EndTag(name: string): string
  {
    "</" + name + ">"
  }

  /** What closes an element with children, grouped as the content loop reads it. */
  lemma CloseTextIs(name: string, children: seq<Node>)
    requires children != []
    ensures CloseText(name, children) == ">" + (ChildrenText(children) + EndTag(name))
  {
    var ct := ChildrenText(children);
    assert CloseText(name, children) == ">" + ct + "</" + name + ">";
    assert ">" + ct + "</" + name + ">" == ">" + (ct + ("</" + name + ">"));
  }

  /** `x` followed by `y` and `z` occurs at `p`: `x` does, and `y` then `z` after it. */
  lemma HasAtAssoc(s: string, p: nat, x: string, y: string, z: string)
    requires HasAt(s, p, x + y + z)
    ensures HasAt(s, p, x) && HasAt(s, p + |x|, y + z)
  {
    assert x + y + z == x + (y + z);
    HasAtSplit(s, p, x, y + z, p + |x|);
  }

  /** Where the pieces of `</name>` stand. */
  lemma CloseTagPieces(s: string, p: nat, name: string)
    requires HasAt(s, p, EndTag(name))
    ensures |EndTag(name)| == |name| + 3
    ensures At(s, p) == '<' && At(s, p + 1) == '/'
    ensures HasAt(s, p + 2, name) && At(s, p + 2 + |name|) == '>'
  {
    HasAtSplit(s, p, "</" + name, ">", p + |"</" + name|);
    HasAtSplit(s, p, "</", name, p + |"</"|);
    CharAt(s, p, "</", 0);
    CharAt(s, p, "</", 1);
    CharAt(s, p + 2 + |name|, ">", 0);
  }

  /** The first character of what follows a child: `<` unless text follows. */
  lemma NextIsLt(s: string, p: nat, name: string, rest: seq<Node>)
    requires HasAt(s, p, ChildrenText(rest) + EndTag(name))
    requires rest == [] || rest[0].Element?
    ensures At(s, p) == '<'
  {
    var x := ChildrenText(rest) + EndTag(name);
    CharAt(s, p, x, 0);
    if rest != [] {
      assert x[0] == Serialize(rest[0])[0];
    }
  }

  /** `TagAt` reaches the end of the start tag, from the facts about its name and attributes. */
  lemma TagAtWhen(s: string, p: nat, name: string, attrs: seq<Attr>, q0: nat, qa: nat)
    requires q0 == p + 1 + |name| && q0 <= |s| && |name| > 0
    requires At(s, p) == '<' && IsNameChar(At(s, p + 1))
    requires Extract(s, p + 1, NameEnd) == Some((name, q0))
    requires AttrsAt(s, SkipWs(s, q0), []) == Ok(attrs, qa)
    ensures qa <= |s| && TagAt(s, p) == ElementEnd(s, qa, name, attrs)
  {
    assert SkipWs(s, p + 1) == p + 1;
  }

  /** `TagAt` reads a name laid out at `p + 1` and the attributes after it. */
  lemma StartTagAt(s: string, p: nat, name: string, attrs: seq<Attr>, q0: nat, qa: nat)
    requires ValidName(name) && At(s, p) == '<' && HasAt(s, p + 1, name)
    requires q0 == p + 1 + |name| && IsntNameChar(At(s, q0))
    requires AttrsAt(s, SkipWs(s, q0), []) == Ok(attrs, qa)
    ensures qa <= |s| && TagAt(s, p) == ElementEnd(s, qa, name, attrs)
  {
    ExtractName(s, p + 1, name);
    TagAtWhen(s, p, name, attrs, q0, qa);
  }

  /** A start tag closed by `/>`. */
  lemma EndEmptyWhen(s: string, qa: nat, name: string, attrs: seq<Attr>)
    requires qa <= |s| && At(s, qa) == '/' && At(s, qa + 1) == '>'
    ensures ElementEnd(s, qa, name, attrs) == Ok(Element(name, attrs, []), qa + 2)
  {
    assert SkipWs(s, qa + 1) == qa + 1;
  }

  /** A start tag whose `>` is followed by content the content loop reads as `children`. */
  lemma EndReads(s: string, qa: nat, name: string, attrs: seq<Attr>, children: seq<Node>, e: nat)
    requires qa <= |s| && At(s, qa) == '>' && At(s, qa + 1) != '\0' && |name| > 0
    requires Reads(s, qa + 1, name, children, e)
    ensures ElementEnd(s, qa, name, attrs) == Ok(Element(name, attrs, children), e)
  {
    assert [] + children == children;
    ContentReads(s, qa + 1, name, children, [], children, e);
    EndContentWhen(s, qa, name, attrs, children, e);
  }

  /** A start tag with content after its `>`. */
  lemma EndContentWhen(s: string, qa: nat, name: string, attrs: seq<Attr>, children: seq<Node>, e: nat)
    requires qa <= |s| && At(s, qa) == '>' && At(s, qa + 1) != '\0'
    requires ContentAt(s, qa + 1, name, []) == Ok(children, e)
    ensures ElementEnd(s, qa, name, attrs) == Ok(Element(name, attrs, children), e)
  {
  }

  /** The content loop meets the close tag of `name` at `p`. */
  lemma ContentCloseWhen(s: string, p: nat, name: string, acc: seq<Node>)
    requires p <= |s| && |name| > 0
    requires At(s, p) == '<' && At(s, p + 1) == '/' && IsNameChar(At(s, p + 2))
    requires CloseMismatch(s, p + 2, name, 0) == |name| && At(s, p + 2 + |name|) == '>'
    ensures ContentAt(s, p, name, acc) == Ok(acc, p + 3 + |name|)
  {
    assert SkipWs(s, p + 1) == p + 1 && SkipWs(s, p + 2) == p + 2;
    assert CloseTagAt(s, p + 1, name) == Some(p + 3 + |name|);
  }

  /** The content loop meets a child element at `p`, and goes on after it to `r`. */
  lemma ContentChildWhen(s: string, p: nat, name: string, acc: seq<Node>, c: Node, e: nat, r: Parsed<seq<Node>>)
    requires p <= |s|
    requires At(s, p) == '<' && IsNameChar(At(s, p + 1))
    requires TagAt(s, p) == Ok(c, e)
    requires e <= |s| && ContentAt(s, e, name, acc + [c]) == r
    ensures ContentAt(s, p, name, acc) == r
  {
    assert SkipWs(s, p + 1) == p + 1;
  }

  /** The content loop meets text at `p`, and goes on after it to `r`. */
  lemma ContentTextWhen(s: string, p: nat, name: string, acc: seq<Node>, x: string, e: nat, r: Parsed<seq<Node>>)
    requires p <= |s| && At(s, p) != '<'
    requires Extract(s, p, Lt) == Some((x, e))
    requires e <= |s| && ContentAt(s, e, name, acc + [Text(Unescape(x))]) == r
    ensures ContentAt(s, p, name, acc) == r
  {
  }

  /** The name of a start tag ends where its attributes begin. */
  lemma NameEnds(s: string, q: nat, attrs: seq<Attr>, e: nat)
    requires HasAt(s, q, AttrsText(attrs)) && e == q + |AttrsText(attrs)|
    requires At(s, e) == '/' || At(s, e) == '>'
    ensures IsntNameChar(At(s, q))
  {
    if attrs != [] {
      var a := attrs[0];
      HasAtSplit(s, q, AttrText(a), AttrsText(attrs[1..]), q + |AttrText(a)|);
      AttrPieces(s, q, a, q + 1, q + 1 + |a.name| + 2, q + 1 + |a.name| + 2 + |Escape(a.value)|);
    }
  }

  /**
   * A start tag `<name attrs`, followed by `/` or `>`, reads back up to that
   * character, where the end of the element is read.
   */
  lemma StartTagRoundTrip(s: string, p: nat, name: string, attrs: seq<Attr>, qa: nat)
    requires ValidName(name)
    requires forall i :: 0 <= i < |attrs| ==> ValidName(attrs[i].name) && NoNul(attrs[i].value)
    requires At(s, p) == '<' && HasAt(s, p + 1, name)
    requires HasAt(s, p + 1 + |name|, AttrsText(attrs)) && qa == p + 1 + |name| + |AttrsText(attrs)|
    requires At(s, qa) == '/' || At(s, qa) == '>'
    ensures qa <= |s| && IsNameChar(At(s, p + 1))
    ensures TagAt(s, p) == ElementEnd(s, qa, name, attrs)
  {
    var q0 := p + 1 + |name|;
    NameEnds(s, q0, attrs, qa);
    AttrsRoundTrip(s, q0, attrs, [], qa);
    assert [] + attrs == attrs;
    StartTagAt(s, p, name, attrs, q0, qa);
    CharAt(s, p + 1, name, 0);
  }

  /** The serialized text of a well-formed element reads back as the element, wherever it stands. */
  lemma {:induction false} ElementRoundTrip(s: string, p: nat, n: Node)
    requires n.Element? && WellFormed(n)
    requires HasAt(s, p, Serialize(n))
    ensures At(s, p) == '<' && IsNameChar(At(s, p + 1))
    ensures TagAt(s, p) == Ok(n, p + |Serialize(n)|)
    decreases n, 2
  {
    ElementPieces(s, p, n);
    var qa := p + 1 + |n.name| + |AttrsText(n.attrs)|;
    ClosePieces(s, qa, n.name, n.children);
    StartTagRoundTrip(s, p, n.name, n.attrs, qa);
    EndRoundTrip(s, qa, n);
  }

  /** What the serializer writes after the attributes of a well-formed element reads back. */
  lemma {:induction false} EndRoundTrip(s: string, qa: nat, n: Node)
    requires n.Element? && WellFormed(n)
    requires HasAt(s, qa, CloseText(n.name, n.children))
    ensures ElementEnd(s, qa, n.name, n.attrs) == Ok(n, qa + |CloseText(n.name, n.children)|)
    decreases n, 1
  {
    ClosePieces(s, qa, n.name, n.children);
    if n.children == [] {
      EndEmptyWhen(s, qa, n.name, n.attrs);
    } else {
      ContentEndRoundTrip(s, qa, n);
    }
  }

  /** A `>`, serialized children and the close tag read back as the end of the element. */
  lemma {:induction false} ContentEndRoundTrip(s: string, qa: nat, n: Node)
    requires n.Element? && WellFormed(n) && n.children != []
    requires qa <= |s| && At(s, qa) == '>'
    requires HasAt(s, qa + 1, ChildrenText(n.children) + EndTag(n.name))
    ensures ElementEnd(s, qa, n.name, n.attrs) == Ok(n, qa + 1 + |ChildrenText(n.children)| + 3 + |n.name|)
    decreases n, 0
  {
    var end := qa + 1 + |ChildrenText(n.children)| + 3 + |n.name|;
    ContentHead(s, qa + 1, n.name, n.children);
    ChildrenReads(s, qa + 1, n.name, n.children, end);
    EndReads(s, qa, n.name, n.attrs, n.children, end);
  }

  /** The input does not end where non-empty content starts. */
  lemma ContentHead(s: string, p: nat, name: string, children: seq<Node>)
    requires children != [] && WellFormed(children[0])
    requires HasAt(s, p, ChildrenText(children) + EndTag(name))
    ensures At(s, p) != '\0'
  {
    var x := ChildrenText(children) + EndTag(name);
    CharAt(s, p, x, 0);
    assert x[0] == Serialize(children[0])[0];
    match children[0]
    case Text(t) =>
      EscapeAvoidsDelimiters(t);
    case Element(_, _, _) =>
  }

  /** The rest of the children are well formed, with no adjacent texts, when all of them are. */
  lemma RestWellFormed(children: seq<Node>)
    requires children != []
    requires forall i :: 0 <= i < |children| ==> WellFormed(children[i])
    requires NoAdjacentText(children)
    ensures forall i :: 0 <= i < |children[1..]| ==> WellFormed(children[1..][i])
    ensures NoAdjacentText(children[1..])
  {
  }

  /** Where the first child and what follows it stand. */
  lemma ChildrenPieces(s: string, p: nat, name: string, children: seq<Node>)
    requires children != []
    requires HasAt(s, p, ChildrenText(children) + EndTag(name))
    ensures |ChildrenText(children)| == |Serialize(children[0])| + |ChildrenText(children[1..])|
    ensures HasAt(s, p, Serialize(children[0]))
    ensures HasAt(s, p + |Serialize(children[0])|, ChildrenText(children[1..]) + EndTag(name))
  {
    assert ChildrenText(children) == Serialize(children[0]) + ChildrenText(children[1..]);
    HasAtAssoc(s, p, Serialize(children[0]), ChildrenText(children[1..]), EndTag(name));
  }

  /** The close tag of `name` at `p`, as the content loop compares it, ending at `end`. */
  predicate CloseAt(s: string, p: nat, name: string, end: nat)
  {
    At(s, p) == '<' && At(s, p + 1) == '/' && IsNameChar(At(s, p + 2))
    && CloseMismatch(s, p + 2, name, 0) == |name| && At(s, p + 2 + |name|) == '>'
    && end == p + 3 + |name|
  }

  /**
   * The content loop, started at `p`, reads `children` one by one and then
   * the close tag of `name`, which ends at `end`: each child element is what
   * `TagAt` reads there, each text what the text branch extracts there.
   */
  predicate Reads(s: string, p: nat, name: string, children: seq<Node>, end: nat)
    decreases |children|
  {
    p <= |s| &&
    if children == [] then CloseAt(s, p, name, end)
    else match children[0]
      case Element(_, _, _) =>
        At(s, p) == '<' && IsNameChar(At(s, p + 1)) && TagAt(s, p).Ok? && TagAt(s, p).value == children[0]
        && Reads(s, TagAt(s, p).next, name, children[1..], end)
      case Text(t) =>
        At(s, p) != '<' && Extract(s, p, Lt).Some? && Unescape(Extract(s, p, Lt).value.0) == t
        && Reads(s, Extract(s, p, Lt).value.1, name, children[1..], end)
  }

  /**
   * When the content loop reads `children` and the close tag from `p`, it
   * returns them appended to whatever it read before, and the cursor past
   * the close tag.
   */
  lemma {:induction false} ContentReads(s: string, p: nat, name: string, children: seq<Node>, acc: seq<Node>, total: seq<Node>, end: nat)
    requires |name| > 0
    requires Reads(s, p, name, children, end)
    requires total == acc + children
    ensures ContentAt(s, p, name, acc) == Ok(total, end)
    decreases |children|
  {
    if children == [] {
      ContentCloseWhen(s, p, name, acc);
      assert acc + children == acc;
    } else {
      var c := children[0];
      ConsAppend(acc, children);
      if c.Element? {
        var e := TagAt(s, p).next;
        ContentReads(s, e, name, children[1..], acc + [c], total, end);
        ContentChildWhen(s, p, name, acc, c, e, Ok(total, end));
      } else {
        var x := Extract(s, p, Lt).value;
        ContentReads(s, x.1, name, children[1..], acc + [c], total, end);
        ContentTextWhen(s, p, name, acc, x.0, x.1, Ok(total, end));
      }
    }
  }

  /** The serialized close tag of `name` is read as one. */
  lemma CloseReads(s: string, p: nat, name: string)
    requires ValidName(name)
    requires HasAt(s, p, EndTag(name))
    ensures CloseAt(s, p, name, p + 3 + |name|)
  {
    CloseTagPieces(s, p, name);
    CharAt(s, p + 2, name, 0);
    CloseMatches(s, p + 2, name, 0);
  }

  /** Escaped text followed by `<` is read back as the text, up to that `<`. */
  lemma TextReads(s: string, p: nat, t: string)
    requires |t| > 0 && NoNul(t)
    requires HasAt(s, p, Escape(t)) && At(s, p + |Escape(t)|) == '<'
    ensures p <= |s| && At(s, p) != '<'
    ensures Extract(s, p, Lt).Some? && Extract(s, p, Lt).value.1 == p + |Escape(t)|
    ensures Unescape(Extract(s, p, Lt).value.0) == t
  {
    EscapedStops(t, Lt);
    CharAt(s, p, Escape(t), 0);
    ValueReads(s, p, t, Lt);
  }

  /**
   * Serialized children with no two texts side by side, followed by the
   * close tag of `name`, are read back child by child.
   */
  lemma {:induction false} ChildrenReads(s: string, p: nat, name: string, children: seq<Node>, end: nat)
    requires ValidName(name)
    requires forall i :: 0 <= i < |children| ==> WellFormed(children[i])
    requires NoAdjacentText(children)
    requires HasAt(s, p, ChildrenText(children) + EndTag(name))
    requires end == p + |ChildrenText(children)| + 3 + |name|
    ensures Reads(s, p, name, children, end)
    decreases children, 4
  {
    if children == [] {
      assert ChildrenText(children) + EndTag(name) == EndTag(name);
      CloseReads(s, p, name);
    } else {
      ChildrenPieces(s, p, name, children);
      RestWellFormed(children);
      if children[0].Element? {
        ElementFirstReads(s, p, name, children, end);
      } else {
        TextFirstReads(s, p, name, children, end);
      }
    }
  }

  /** Children that start with an element: the element, then the rest. */
  lemma {:induction false} ElementFirstReads(s: string, p: nat, name: string, children: seq<Node>, end: nat)
    requires ValidName(name)
    requires children != [] && children[0].Element? && WellFormed(children[0])
    requires forall i :: 0 <= i < |children[1..]| ==> WellFormed(children[1..][i])
    requires NoAdjacentText(children[1..])
    requires HasAt(s, p, Serialize(children[0]))
    requires HasAt(s, p + |Serialize(children[0])|, ChildrenText(children[1..]) + EndTag(name))
    requires end == p + |Serialize(children[0])| + |ChildrenText(children[1..])| + 3 + |name|
    ensures Reads(s, p, name, children, end)
    decreases children, 3
  {
    var c := children[0];
    var e := p + |Serialize(c)|;
    ChildrenReads(s, e, name, children[1..], end);
    ElementRoundTrip(s, p, c);
    assert TagAt(s, p).next == e;
  }

  /** Children that start with text, which an element or the close tag follows: the text, then the rest. */
  lemma {:induction false} TextFirstReads(s: string, p: nat, name: string, children: seq<Node>, end: nat)
    requires ValidName(name)
    requires children != [] && children[0].Text? && WellFormed(children[0])
    requires children[1..] == [] || children[1..][0].Element?
    requires forall i :: 0 <= i < |children[1..]| ==> WellFormed(children[1..][i])
    requires NoAdjacentText(children[1..])
    requires HasAt(s, p, Serialize(children[0]))
    requires HasAt(s, p + |Serialize(children[0])|, ChildrenText(children[1..]) + EndTag(name))
    requires end == p + |Serialize(children[0])| + |ChildrenText(children[1..])| + 3 + |name|
    ensures Reads(s, p, name, children, end)
    decreases children, 3
  {
    var t := children[0].text;
    var e := p + |Serialize(children[0])|;
    ChildrenReads(s, e, name, children[1..], end);
    NextIsLt(s, e, name, children[1..]);
    assert Serialize(children[0]) == Escape(t);
    TextReads(s, p, t);
    assert Extract(s, p, Lt).value.1 == e;
  }

  /** `XML_parse(XML_as_text(n))` is `n` for every well-formed element `n`. */
  lemma SerializeThenParse(n: Node)
    requires n.Element? && WellFormed(n)
    ensures DocumentOf(Serialize(n)) == Valid(n)
  {
    var s := Serialize(n);
    assert HasAt(s, 0, s);
    ElementRoundTrip(s, 0, n);
  }

  /** Anything after the serialized element, even white space, makes the document invalid. */
  lemma TrailingTextRejected(n: Node, t: string)
    requires n.Element? && WellFormed(n)
    requires |t| > 0 && t[0] != '\0'
    ensures DocumentOf(Serialize(n) + t) == Invalid
  {
    PrefixAt(Serialize(n), t);
    ElementRoundTrip(Serialize(n) + t, 0, n);
  }

  /** `x` stands at the start of `x + t`, and the first character of `t` right after it. */
  lemma PrefixAt(x: string, t: string)
    requires |t| > 0
    ensures HasAt(x + t, 0, x) && At(x + t, |x|) == t[0]
  {
  }

  /** A document the parser accepts reads the same after being written back out. */
  lemma ParseThenSerialize(s: string)
    requires DocumentOf(s).Valid?
    ensures DocumentOf(Serialize(DocumentOf(s).root)) == DocumentOf(s)
  {
    Shape.ValidDocument(s);
    SerializeThenParse(DocumentOf(s).root);
  }

  /** The text `x3 + name + ">"` holds `x3`, then `name` at `q`, then `>`. */
  lemma CloseTail(s: string, x3: string, name: string, q: nat)
    requires s == x3 + name + ">" && q == |x3|
    ensures |s| == q + |name| + 1
    ensures HasAt(s, 0, x3) && HasAt(s, q, name) && At(s, q + |name|) == '>'
  {
    var x4 := x3 + name;
    assert |x4| == q + |name|;
    assert HasAt(s, 0, s);
    HasAtSplit(s, 0, x4, ">", q + |name|);
    HasAtSplit(s, 0, x3, name, q);
    CharAt(s, q + |name|, ">", 0);
  }

  /** The prefix `<name attrs></` of `s` holds its pieces where they belong. */
  lemma OpenHead(s: string, x1: string, x2: string, name: string, attrs: seq<Attr>, qa: nat)
    requires x1 == "<" + name && x2 == x1 + AttrsText(attrs) && HasAt(s, 0, x2 + "></")
    requires qa == 1 + |name| + |AttrsText(attrs)|
    ensures At(s, 0) == '<' && HasAt(s, 1, name) && HasAt(s, 1 + |name|, AttrsText(attrs))
    ensures At(s, qa) == '>' && At(s, qa + 1) == '<' && At(s, qa + 2) == '/'
  {
    assert |x1| == 1 + |name| && |x2| == qa;
    HasAtSplit(s, 0, x2, "></", qa);
    HasAtSplit(s, 0, x1, AttrsText(attrs), 1 + |name|);
    HasAtSplit(s, 0, "<", name, 1);
    CharAt(s, 0, "<", 0);
    CharAt(s, qa, "></", 0);
    CharAt(s, qa, "></", 1);
    CharAt(s, qa, "></", 2);
  }

  /** The element end `></name>` at `qa` closes the element with no children. */
  lemma EmptyContentAt(s: string, qa: nat, name: string, attrs: seq<Attr>)
    requires ValidName(name) && qa <= |s|
    requires At(s, qa) == '>' && At(s, qa + 1) == '<' && At(s, qa + 2) == '/'
    requires HasAt(s, qa + 3, name) && At(s, qa + 3 + |name|) == '>'
    ensures ElementEnd(s, qa, name, attrs) == Ok(Element(name, attrs, []), qa + 4 + |name|)
  {
    CloseMatches(s, qa + 3, name, 0);
    CharAt(s, qa + 3, name, 0);
    ContentCloseWhen(s, qa + 1, name, []);
    EndContentWhen(s, qa, name, attrs, [], qa + 4 + |name|);
  }

  /**
   * A text holding `<name attrs></` at 0, then `name` and a final `>`, is read
   * as the element with no children.
   */
  lemma OpenCloseRead(s: string, name: string, attrs: seq<Attr>, x3: string, qa: nat)
    requires ValidName(name)
    requires forall i :: 0 <= i < |attrs| ==> ValidName(attrs[i].name) && NoNul(attrs[i].value)
    requires x3 == "<" + name + AttrsText(attrs) + "></" && qa == 1 + |name| + |AttrsText(attrs)|
    requires HasAt(s, 0, x3) && HasAt(s, qa + 3, name) && At(s, qa + 3 + |name|) == '>'
    requires |s| == qa + 4 + |name|
    ensures TagAt(s, 0) == Ok(Element(name, attrs, []), |s|)
  {
    var x1 := "<" + name;
    var x2 := x1 + AttrsText(attrs);
    OpenHead(s, x1, x2, name, attrs, qa);
    StartTagRoundTrip(s, 0, name, attrs, qa);
    EmptyContentAt(s, qa, name, attrs);
  }

  /** `<name attrs></name>` is a valid document whose root is the element with no children. */
  lemma OpenCloseDocument(name: string, attrs: seq<Attr>)
    requires ValidName(name)
    requires forall i :: 0 <= i < |attrs| ==> ValidName(attrs[i].name) && NoNul(attrs[i].value)
    ensures DocumentOf("<" + name + AttrsText(attrs) + "></" + name + ">") == Valid(Element(name, attrs, []))
  {
    var x3 := "<" + name + AttrsText(attrs) + "></";
    var qa := 1 + |name| + |AttrsText(attrs)|;
    assert |x3| == qa + 3;
    var s := x3 + name + ">";
    CloseTail(s, x3, name, qa + 3);
    OpenCloseRead(s, name, attrs, x3, qa);
  }

  /**
   * The two spellings of an element without children, `<name attrs/>` and
   * `<name attrs></name>`, are both read as that element.
   */
  lemma EmptyElementForms(name: string, attrs: seq<Attr>)
    requires ValidName(name)
    requires forall i :: 0 <= i < |attrs| ==> ValidName(attrs[i].name) && NoNul(attrs[i].value)
    ensures DocumentOf("<" + name + AttrsText(attrs) + "/>") == Valid(Element(name, attrs, []))
    ensures DocumentOf("<" + name + AttrsText(attrs) + "></" + name + ">") == Valid(Element(name, attrs, []))
  {
    SerializeThenParse(Element(name, attrs, []));
    OpenCloseDocument(name, attrs);
  }
}
