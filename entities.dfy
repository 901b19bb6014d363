/**
 * The entity codec of xml.c: `XML_escape`, `XML_unescape` and the string
 * branch of `XML_strlen`.  Exactly four characters are escaped, `<` `>` `&`
 * `"`, as `&lt;` `&gt;` `&amp;` `&quot;`; unescaping decodes exactly those
 * four entities and copies any other `&` through unchanged.
 */
module Entities {
  import opened Chars
  import Memory

  /** The text that `XML_escape` writes for one character. */
  function EntityOf(c: char): string
  {
    if c == '<' then "&lt;"
    else if c == '>' then "&gt;"
    else if c == '&' then "&amp;"
    else if c == '"' then "&quot;"
    else [c]
  }

  /** The width the string branch of `XML_strlen` counts for one character. */
  function Width(c: char): nat
  {
    if c == '<' || c == '>' then 4
    else if c == '&' then 5
    else if c == '"' then 6
    else 1
  }

  /** The escaped length of `s`, as the string branch of `XML_strlen` counts it; escaping never shortens. */
  function EscapedLength(s: string): (r: nat)
    ensures r >= |s|
  {
    if s == [] then 0 else Width(s[0]) + EscapedLength(s[1..])
  }

  /**
   * `XML_escape`: every character replaced by its entity.  The result is
   * exactly as long as the string branch of `XML_strlen` says.
   */
  function Escape(s: string): (r: string)
    ensures |r| == EscapedLength(s)
    ensures |s| > 0 ==> |r| > 0
  {
    if s == [] then [] else EntityOf(s[0]) + Escape(s[1..])
  }

  /**
   * One step of `XML_unescape` at offset `i`: the character it writes and how
   * many input characters that character stands for.  One of the four
   * entities decodes to its character; anything else, including an `&` that
   * starts no entity, stands for itself.
   */
  function DecodedAt(s: string, i: nat): (r: (char, nat))
    requires i < |s|
    ensures 1 <= r.1 <= |s| - i
  {
    if s[i] == '&' && i + 3 < |s| && s[i + 1] == 'l' && s[i + 2] == 't' && s[i + 3] == ';' then ('<', 4)
    else if s[i] == '&' && i + 3 < |s| && s[i + 1] == 'g' && s[i + 2] == 't' && s[i + 3] == ';' then ('>', 4)
    else if s[i] == '&' && i + 4 < |s| && s[i + 1] == 'a' && s[i + 2] == 'm' && s[i + 3] == 'p'
         && s[i + 4] == ';' then ('&', 5)
    else if s[i] == '&' && i + 5 < |s| && s[i + 1] == 'q' && s[i + 2] == 'u' && s[i + 3] == 'o'
         && s[i + 4] == 't' && s[i + 5] == ';' then ('"', 6)
    else (s[i], 1)
  }

  /** The decoded text of `s` from offset `i` on. */
  function UnescapeFrom(s: string, i: nat): (r: string)
    requires i <= |s|
    ensures |r| <= |s| - i
    ensures i < |s| ==> |r| > 0
    decreases |s| - i
  {
    if i == |s| then [] else [DecodedAt(s, i).0] + UnescapeFrom(s, i + DecodedAt(s, i).1)
  }

  /**
   * `XML_unescape`: a left-to-right scan that decodes `&lt;` `&gt;` `&amp;`
   * `&quot;` and copies every other character, including any other `&`,
   * unchanged.  It never lengthens its input (the source allocates
   * `strlen(in) + 1` bytes for the result) and keeps non-empty input non-empty.
   */
  function Unescape(s: string): (r: string)
    ensures |r| <= |s|
    ensures |s| > 0 ==> |r| > 0
  {
    UnescapeFrom(s, 0)
  }

  /** Escaping distributes over concatenation. */
  lemma {:induction false} EscapeAppend(a: string, b: string)
    ensures Escape(a + b) == Escape(a) + Escape(b)
  {
    if a != [] {
      assert (a + b)[0] == a[0];
      assert (a + b)[1..] == a[1..] + b;
      EscapeAppend(a[1..], b);
      calc {
        Escape(a + b);
        EntityOf(a[0]) + Escape(a[1..] + b);
        EntityOf(a[0]) + (Escape(a[1..]) + Escape(b));
        (EntityOf(a[0]) + Escape(a[1..])) + Escape(b);
      }
    } else {
      assert a + b == b;
    }
  }

  /**
   * Escaped text contains no `<`, `>` or `"`, so it can stand between quotes
   * or between tags, and no NUL unless its input had one.
   */
  lemma {:induction false} EscapeAvoidsDelimiters(s: string)
    ensures forall i :: 0 <= i < |Escape(s)| ==> Escape(s)[i] !in "<>\""
    ensures NoNul(s) ==> NoNul(Escape(s))
  {
    if s != [] {
      EscapeAvoidsDelimiters(s[1..]);
      var e, t := EntityOf(s[0]), Escape(s[1..]);
      assert Escape(s) == e + t;
      forall i | 0 <= i < |e + t|
        ensures (e + t)[i] !in "<>\""
        ensures NoNul(s) ==> (e + t)[i] != '\0'
      {
        if i >= |e| {
          assert (e + t)[i] == t[i - |e|];
          assert NoNul(s) ==> NoNul(s[1..]);
        }
      }
    }
  }

  /** Text without `<` `>` `&` `"` is left exactly as it is by escaping. */
  lemma {:induction false} EscapePlain(s: string)
    requires forall i :: 0 <= i < |s| ==> s[i] !in "<>&\""
    ensures Escape(s) == s
  {
    if s != [] {
      EscapePlain(s[1..]);
    }
  }

  /** Decoding ignores whatever precedes the offset it starts from. */
  lemma {:induction false} UnescapeFromShift(p: string, t: string, j: nat)
    requires j <= |t|
    ensures UnescapeFrom(p + t, |p| + j) == UnescapeFrom(t, j)
    decreases |t| - j
  {
    if j < |t| {
      var u := p + t;
      forall k | j <= k < |t|
        ensures u[|p| + k] == t[k]
      {
      }
      assert DecodedAt(u, |p| + j) == DecodedAt(t, j);
      UnescapeFromShift(p, t, j + DecodedAt(t, j).1);
    }
  }

  /** Unescaping text without NUL gives text without NUL. */
  lemma {:induction false} UnescapeNoNul(s: string, i: nat)
    requires NoNul(s) && i <= |s|
    ensures NoNul(UnescapeFrom(s, i))
    decreases |s| - i
  {
    if i < |s| {
      UnescapeNoNul(s, i + DecodedAt(s, i).1);
    }
  }

  /** Decoding one escaped character in front of any text yields that character. */
  lemma UnescapeEntity(c: char, t: string)
    ensures Unescape(EntityOf(c) + t) == [c] + Unescape(t)
  {
    var e := EntityOf(c);
    var u := e + t;
    assert u[..|e|] == e;
    assert DecodedAt(u, 0) == (c, |e|);
    UnescapeFromShift(e, t, 0);
  }

  /** Unescaping inverts escaping, for every string. */
  lemma {:induction false} UnescapeEscape(s: string)
    ensures Unescape(Escape(s)) == s
  {
    if s != [] {
      UnescapeEntity(s[0], Escape(s[1..]));
      UnescapeEscape(s[1..]);
    }
  }

  /** Text without `&` is left exactly as it is by unescaping. */
  lemma {:induction false} UnescapePlain(s: string, i: nat)
    requires i <= |s|
    requires forall k :: 0 <= k < |s| ==> s[k] != '&'
    ensures UnescapeFrom(s, i) == s[i..]
    decreases |s| - i
  {
    if i < |s| {
      UnescapePlain(s, i + 1);
      assert s[i..] == [s[i]] + s[i + 1..];
    }
  }

  /** No `&` in `s` is followed by `lt;`, `gt;`, `amp;` or `quot;`. */
  predicate NoEntity(s: string)
  {
    forall k :: 0 <= k < |s| && s[k] == '&' ==>
      !("lt;" <= s[k + 1..]) && !("gt;" <= s[k + 1..]) && !("amp;" <= s[k + 1..]) && !("quot;" <= s[k + 1..])
  }

  /** Text in which no `&` starts one of the four entities passes through unescaping literally, `&` included. */
  lemma {:induction false} UnescapeLiteral(s: string, i: nat)
    requires i <= |s| && NoEntity(s)
    ensures UnescapeFrom(s, i) == s[i..]
    decreases |s| - i
  {
    if i < |s| {
      LiteralAt(s, i);
      UnescapeLiteral(s, i + 1);
      assert s[i..] == [s[i]] + s[i + 1..];
    }
  }

  /** Where no entity starts, one decoding step copies one character. */
  lemma LiteralAt(s: string, i: nat)
    requires i < |s| && NoEntity(s)
    ensures DecodedAt(s, i) == (s[i], 1)
  {
    var t := s[i + 1..];
    assert i + 3 < |s| && s[i + 1] == 'l' && s[i + 2] == 't' && s[i + 3] == ';' ==> "lt;" <= t;
    assert i + 3 < |s| && s[i + 1] == 'g' && s[i + 2] == 't' && s[i + 3] == ';' ==> "gt;" <= t;
    assert i + 4 < |s| && s[i + 1] == 'a' && s[i + 2] == 'm' && s[i + 3] == 'p' && s[i + 4] == ';' ==> "amp;" <= t;
    assert i + 5 < |s| && s[i + 1] == 'q' && s[i + 2] == 'u' && s[i + 3] == 'o' && s[i + 4] == 't' && s[i + 5] == ';'
      ==> "quot;" <= t;
  }

  /** Escaping lengthens any text holding `&`. */
  lemma {:induction false} EscapeLengthensAmp(s: string)
    requires '&' in s
    ensures EscapedLength(s) > |s|
  {
    if s[0] != '&' {
      assert '&' in s[1..] by {
        var k :| 0 <= k < |s| && s[k] == '&';
        assert s[1..][k - 1] == '&';
      }
      EscapeLengthensAmp(s[1..]);
    }
  }

  /**
   * Escape after unescape is not the identity: text holding an `&` that starts
   * none of the four entities comes back from unescaping unchanged, and then
   * escaping makes it longer.
   */
  lemma EscapeAfterUnescapeGrows(s: string)
    requires NoEntity(s) && '&' in s
    ensures Unescape(s) == s
    ensures Escape(Unescape(s)) != s && |Escape(Unescape(s))| > |s|
  {
    UnescapeLiteral(s, 0);
    EscapeLengthensAmp(s);
  }

  /** Escaping does not invert unescaping: an unknown entity passes through unescaping and then gains an `&amp;`. */
  lemma EscapeAfterUnescapeDiffers()
    ensures Escape(Unescape("&x;")) == "&amp;x;"
  {
    var s := "&x;";
    assert NoEntity(s) by {
      forall k | 0 <= k < |s| && s[k] == '&'
        ensures !("lt;" <= s[k + 1..]) && !("gt;" <= s[k + 1..]) && !("amp;" <= s[k + 1..]) && !("quot;" <= s[k + 1..])
      {
        assert k == 0 && s[1..] == "x;";
      }
    }
    UnescapeLiteral(s, 0);
    assert Escape(s) == "&amp;x;" by {
      assert s[1..][1..] == s[2..];
      assert s[2..][1..] == s[3..];
    }
  }

  /** The string branch of `XML_strlen`: a loop adding each character's width. */
  method EscapedLen(s: string) returns (r: nat)
    ensures r == EscapedLength(s)
  {
    r := 0;
    var i := 0;
    while i < |s|
      invariant 0 <= i <= |s|
      invariant r + EscapedLength(s[i..]) == EscapedLength(s)
    {
      assert s[i..][1..] == s[i + 1..];
      match s[i] {
        case '<' => r := r + 4;
        case '>' => r := r + 4;
        case '&' => r := r + 5;
        case '"' => r := r + 6;
        case _ => r := r + 1;
      }
      i := i + 1;
    }
  }

  /** One step of `XML_escape`'s loop: the prefix up to `i + 1` adds the entity of `s[i]`. */
  lemma EscapeStep(s: string, i: nat)
    requires i < |s|
    ensures Escape(s[..i + 1]) == Escape(s[..i]) + EntityOf(s[i])
    ensures EscapedLength(s[i..]) == Width(s[i]) + EscapedLength(s[i + 1..])
  {
    assert s[i..][1..] == s[i + 1..];
    assert s[..i + 1] == s[..i] + [s[i]];
    EscapeAppend(s[..i], [s[i]]);
    assert Escape([s[i]]) == EntityOf(s[i]) + Escape([]);
  }

  /**
   * One case of the `switch` in `XML_escape`: writes the entity of `c` (or `c`
   * itself) at `xi` and returns the write index just past it.
   */
  method PutEscaped(r: array<char>, xi: nat, c: char) returns (next: nat)
    requires xi + Width(c) <= r.Length
    modifies r
    ensures next == xi + |EntityOf(c)| == xi + Width(c)
    ensures r[..next] == old(r[..xi]) + EntityOf(c)
    ensures forall k :: next <= k < r.Length ==> r[k] == old(r[k])
  {
    if c == '<' {
      Memory.Copy(r, xi, "&lt;");
      next := xi + 4;
    } else if c == '>' {
      Memory.Copy(r, xi, "&gt;");
      next := xi + 4;
    } else if c == '&' {
      Memory.Copy(r, xi, "&amp;");
      next := xi + 5;
    } else if c == '"' {
      Memory.Copy(r, xi, "&quot;");
      next := xi + 6;
    } else {
      r[xi] := c;
      next := xi + 1;
    }
  }

  /**
   * `XML_escape`: measures the result first, allocates exactly that many
   * characters and fills them through the write index `xi`; the buffer is
   * full exactly when the input is used up.
   */
  method EscapeString(s: string) returns (out: string)
    ensures out == Escape(s)
  {
    var len := EscapedLen(s);
    var r := new char[len];
    var i, xi := 0, 0;
    while i < |s|
      invariant 0 <= i <= |s|
      invariant 0 <= xi && xi + EscapedLength(s[i..]) == len == r.Length
      invariant r[..xi] == Escape(s[..i])
    {
      EscapeStep(s, i);
      xi := PutEscaped(r, xi, s[i]);
      i := i + 1;
    }
    assert s[..i] == s;
    assert r[..] == r[..xi];
    out := r[..];
  }

  /**
   * The entity tests of `XML_unescape` at offset `i`: yields the character to
   * write and the offset of the last input character it stands for (`i` itself
   * unless one of the four entities starts at `i`).
   */
  method DecodeAt(s: string, i: nat) returns (c: char, last: nat)
    requires i < |s|
    ensures c == DecodedAt(s, i).0 && last + 1 == i + DecodedAt(s, i).1
    ensures i <= last < |s|
  {
    c, last := s[i], i;
    if s[i] == '&' {
      if At(s, i + 1) == 'l' {
        if At(s, i + 2) == 't' {
          if At(s, i + 3) == ';' {
            c, last := '<', i + 3;
          }
        }
      } else if At(s, i + 1) == 'g' {
        if At(s, i + 2) == 't' {
          if At(s, i + 3) == ';' {
            c, last := '>', i + 3;
          }
        }
      } else if At(s, i + 1) == 'a' {
        if At(s, i + 2) == 'm' {
          if At(s, i + 3) == 'p' {
            if At(s, i + 4) == ';' {
              c, last := '&', i + 4;
            }
          }
        }
      } else if At(s, i + 1) == 'q' {
        if At(s, i + 2) == 'u' {
          if At(s, i + 3) == 'o' {
            if At(s, i + 4) == 't' {
              if At(s, i + 5) == ';' {
                c, last := '"', i + 5;
              }
            }
          }
        }
      }
    }
  }

  /**
   * `XML_unescape`: writes one character to `r[ri]` per step, decoding an
   * entity where one starts.  The buffer has the input's length, and `ri`
   * never passes `i`.
   */
  method UnescapeString(s: string) returns (out: string)
    ensures out == Unescape(s)
  {
    var r := new char[|s|];
    var i, ri := 0, 0;
    ghost var written: string := [];
    while i < |s|
      invariant 0 <= ri <= i <= |s|
      invariant r[..ri] == written
      invariant written + UnescapeFrom(s, i) == Unescape(s)
    {
      var c, last := DecodeAt(s, i);
      r[ri] := c;
      assert r[..ri + 1] == r[..ri] + [c];
      ghost var rest := UnescapeFrom(s, last + 1);
      assert (written + [c]) + rest == written + ([c] + rest);
      written := written + [c];
      i, ri := last + 1, ri + 1;
    }
    out := r[..ri];
  }
}
