/**
 * The cursor helpers of the xml.c parser: `XML_eatws`, `XML_extract_until`
 * and `XML_extract_name`.  A cursor is an offset into the input; every read
 * goes through `At`, so the end of the input and an embedded NUL both stop a
 * scan, as the terminator does in C.
 */
module Scanner {
  import opened Chars
  import opened Tree

  /** The character classes the parser hands to `XML_extract_until`: where a name, a quoted value and a run of text end. */
  datatype Stop = NameEnd | Quote | Lt

  /** Whether `c` ends the stretch `f` extracts. */
  predicate Stops(f: Stop, c: char)
  {
    match f
    case NameEnd => IsntNameChar(c)
    case Quote => IsQuote(c)
    case Lt => IsLt(c)
  }

  /** Where `XML_eatws` leaves the cursor: the first offset from `p` on that is not white space. */
  function SkipWs(s: string, p: nat): (q: nat)
    ensures p <= q
    ensures !IsSpace(At(s, q))
    ensures p <= |s| ==> q <= |s|
    decreases |s| - p
  {
    if IsSpace(At(s, p)) then SkipWs(s, p + 1) else p
  }

  /** Everything `XML_eatws` passes over is white space. */
  lemma {:induction false} SkippedSpace(s: string, p: nat)
    ensures forall k :: p <= k < SkipWs(s, p) ==> k < |s| && IsSpace(s[k])
    decreases |s| - p
  {
    if IsSpace(At(s, p)) {
      SkippedSpace(s, p + 1);
      assert SkipWs(s, p) == SkipWs(s, p + 1) && At(s, p) == s[p];
    } else {
      assert SkipWs(s, p) == p;
    }
  }

  /** Where the loop of `XML_extract_until` stops: the first offset from `p` on holding NUL or a character `f` accepts. */
  function ScanUntil(s: string, p: nat, f: Stop): (q: nat)
    ensures p <= q
    ensures At(s, q) == '\0' || Stops(f, At(s, q))
    ensures p <= |s| ==> q <= |s|
    decreases |s| - p
  {
    if At(s, p) != '\0' && !Stops(f, At(s, p)) then ScanUntil(s, p + 1, f) else p
  }

  /** Everything the scan passes over is neither NUL nor accepted by `f`. */
  lemma {:induction false} ScannedClean(s: string, p: nat, f: Stop)
    ensures forall k :: p <= k < ScanUntil(s, p, f) ==> k < |s| && s[k] != '\0' && !Stops(f, s[k])
    decreases |s| - p
  {
    if At(s, p) != '\0' && !Stops(f, At(s, p)) {
      ScannedClean(s, p + 1, f);
      assert ScanUntil(s, p, f) == ScanUntil(s, p + 1, f) && At(s, p) == s[p];
    } else {
      assert ScanUntil(s, p, f) == p;
    }
  }

  /**
   * `XML_extract_until`: the text from `p` up to the first character `f`
   * accepts, and the offset of that character; nothing when the input ends
   * first (unless `f` accepts NUL itself).
   */
  function Extract(s: string, p: nat, f: Stop): (r: Option<(string, nat)>)
    requires p <= |s|
    ensures r.Some? ==> p <= r.value.1 <= |s| && r.value.0 == s[p..r.value.1] && Stops(f, At(s, r.value.1))
    ensures r.Some? ==> forall k :: p <= k < r.value.1 ==> s[k] != '\0' && !Stops(f, s[k])
    ensures r.None? <==> exists q :: p <= q <= |s| && At(s, q) == '\0' && !Stops(f, '\0')
                                      && forall k :: p <= k < q ==> !Stops(f, At(s, k))
  {
    var q := ScanUntil(s, p, f);
    ScannedClean(s, p, f);
    if Stops(f, At(s, q)) then Some((s[p..q], q)) else None
  }

  /** A name never fails to extract, because NUL is not a name character; it may be empty. */
  lemma ExtractNameNeverFails(s: string, p: nat)
    requires p <= |s|
    ensures Extract(s, p, NameEnd).Some?
    ensures ValidName(Extract(s, p, NameEnd).value.0) <==> IsNameChar(At(s, p))
  {
    var q := ScanUntil(s, p, NameEnd);
    ScannedClean(s, p, NameEnd);
    if IsNameChar(At(s, p)) {
      assert s[p..q][0] == s[p];
    }
  }

  /** Extracted text holds no NUL and no character `f` accepts. */
  lemma ExtractedClean(s: string, p: nat, f: Stop)
    requires p <= |s|
    requires Extract(s, p, f).Some?
    ensures NoNul(Extract(s, p, f).value.0)
    ensures forall k :: 0 <= k < |Extract(s, p, f).value.0| ==> !Stops(f, Extract(s, p, f).value.0[k])
  {
    var q := ScanUntil(s, p, f);
    ScannedClean(s, p, f);
    forall k | 0 <= k < q - p
      ensures s[p..q][k] != '\0' && !Stops(f, s[p..q][k])
    {
      assert s[p..q][k] == s[p + k];
    }
  }

  /** `XML_eatws`: advances the cursor over white space. */
  method EatWs(s: string, p: nat) returns (q: nat)
    ensures q == SkipWs(s, p)
  {
    q := p;
    while IsSpace(At(s, q))
      invariant p <= q
      invariant SkipWs(s, q) == SkipWs(s, p)
      decreases |s| - q
    {
      q := q + 1;
    }
  }

  /**
   * `XML_extract_until`: counts the characters before the first one `f`
   * accepts; gives up when it meets NUL first, and otherwise copies them out
   * and moves the cursor onto that character.
   */
  method ExtractUntil(s: string, p: nat, f: Stop) returns (r: Option<(string, nat)>)
    requires p <= |s|
    ensures r == Extract(s, p, f)
  {
    var i := 0;
    while At(s, p + i) != '\0' && !Stops(f, At(s, p + i))
      invariant ScanUntil(s, p + i, f) == ScanUntil(s, p, f)
      decreases |s| - (p + i)
    {
      i := i + 1;
    }
    if !Stops(f, At(s, p + i)) {
      return None;
    }
    r := Some((s[p..p + i], p + i));
  }
}
