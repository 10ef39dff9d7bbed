/**
 * `looks_like_xml` of the debate fetcher: decides from the raw bytes of an
 * HTTP body whether it is an XML document or an HTML error page.
 */
module XmlSniff {

  type byte = x: int | 0 <= x < 256

  const LT: byte := 60   // '<'

  /** `bytes.isspace()` for one byte: space, \t, \n, \v, \f, \r. */
  predicate IsSpace(b: byte)
    ensures IsSpace(b) ==> b < LT && !(65 <= b <= 90)
  {
    b == 32 || 9 <= b <= 13
  }

  /** `bytes.lower()` for one byte: only A-Z change. */
  function ToLower(b: byte): (r: byte)
    ensures !(65 <= r <= 90) && (r == b || r == b + 32)
    ensures IsSpace(r) == IsSpace(b) && (r == LT <==> b == LT)
  {
    if 65 <= b <= 90 then b + 32 else b
  }

  function Lower(s: seq<byte>): (r: seq<byte>)
    ensures |r| == |s| && forall i :: 0 <= i < |r| ==> !(65 <= r[i] <= 90)
  {
    seq(|s|, i requires 0 <= i < |s| => ToLower(s[i]))
  }

  /** `bytes.lstrip()`: drops the leading run of whitespace. */
  function LStrip(s: seq<byte>): (r: seq<byte>)
    ensures |r| <= |s| && r == s[|s| - |r|..]
    ensures forall i :: 0 <= i < |s| - |r| ==> IsSpace(s[i])
    ensures r == [] || !IsSpace(r[0])
  {
    if |s| > 0 && IsSpace(s[0]) then LStrip(s[1..]) else s
  }

  /** `s[:n]` */
  function Take(s: seq<byte>, n: nat): (r: seq<byte>)
    ensures |r| == (if |s| <= n then |s| else n) && r == s[..|r|]
  {
    if |s| <= n then s else s[..n]
  }

  /** `s.startswith(p)` */
  predicate StartsWith(s: seq<byte>, p: seq<byte>)
    ensures StartsWith(s, p) <==> |p| <= |s| && forall i :: 0 <= i < |p| ==> s[i] == p[i]
  {
    |p| <= |s| && s[..|p|] == p
  }

  const MinLength := 100
  const HeadLength := 500

  /** b"<!doctype html" */
  const DoctypeHtml: seq<byte> := [60, 33, 100, 111, 99, 116, 121, 112, 101, 32, 104, 116, 109, 108]
  /** b"<html" */
  const HtmlTag: seq<byte> := [60, 104, 116, 109, 108]
  /** b"<?xml" */
  const XmlDecl: seq<byte> := [60, 63, 120, 109, 108]
  /** b"<" */
  const AngleBracket: seq<byte> := [60]

  /** `looks_like_xml(content)` */
  predicate LooksLikeXml(content: seq<byte>)
    ensures LooksLikeXml(content) ==> |content| >= MinLength && LStrip(content) != []
  {
    if |content| == 0 || |content| < MinLength then false
    else
      var head := Lower(Take(LStrip(content), HeadLength));
      if StartsWith(head, DoctypeHtml) || StartsWith(head, HtmlTag) then false
      else StartsWith(head, XmlDecl) || StartsWith(head, AngleBracket)
  }

  /** `s` begins with the lower-case pattern `p` when ASCII case is ignored. */
  predicate HasPrefixIgnoringCase(s: seq<byte>, p: seq<byte>) {
    |p| <= |s| && forall i :: 0 <= i < |p| ==> ToLower(s[i]) == p[i]
  }

  /**
   * The reference reading of the sniffing rule: after the leading
   * whitespace the body opens with '<', and not with `<!doctype html` or
   * `<html` in any letter case.
   */
  predicate OpensXmlElement(rest: seq<byte>) {
    |rest| > 0 && rest[0] == LT &&
    !HasPrefixIgnoringCase(rest, DoctypeHtml) && !HasPrefixIgnoringCase(rest, HtmlTag)
  }

  lemma {:induction false} LowerHeadPrefix(s: seq<byte>, p: seq<byte>)
    requires |p| <= HeadLength
    ensures StartsWith(Lower(Take(s, HeadLength)), p) <==> HasPrefixIgnoringCase(s, p)
  {
    var head := Lower(Take(s, HeadLength));
    if HasPrefixIgnoringCase(s, p) {
      assert |p| <= |head|;
      assert forall i :: 0 <= i < |p| ==> head[..|p|][i] == p[i];
    }
    if StartsWith(head, p) {
      forall i | 0 <= i < |p| ensures ToLower(s[i]) == p[i] {
        assert head[..|p|][i] == p[i];
      }
    }
  }

  /** `<?xml` is one of the bodies that start with `<`: the first test adds nothing. */
  lemma XmlDeclSubsumed(head: seq<byte>)
    requires StartsWith(head, XmlDecl)
    ensures StartsWith(head, AngleBracket)
  {
    assert head[..1] == head[..5][..1];
  }

  /**
   * The verdict, in full: true exactly when the body has at least 100 bytes
   * and the text after its leading whitespace opens an element that is not
   * an HTML page.
   */
  lemma {:induction false} LooksLikeXmlExactly(content: seq<byte>)
    ensures LooksLikeXml(content) <==> |content| >= MinLength && OpensXmlElement(LStrip(content))
  {
    if |content| >= MinLength {
      var rest := LStrip(content);
      var head := Lower(Take(rest, HeadLength));
      LowerHeadPrefix(rest, DoctypeHtml);
      LowerHeadPrefix(rest, HtmlTag);
      LowerHeadPrefix(rest, AngleBracket);
      if StartsWith(head, XmlDecl) {
        XmlDeclSubsumed(head);
      }
      assert HasPrefixIgnoringCase(rest, AngleBracket) <==> |rest| > 0 && rest[0] == LT;
    }
  }

  /** A body shorter than 100 bytes, the empty body included, is never accepted. */
  lemma ShortBodyRejected(content: seq<byte>)
    requires |content| < MinLength
    ensures !LooksLikeXml(content)
  {
  }

  /** Bodies that begin with an HTML doctype or `<html` tag, in any case, are rejected. */
  lemma {:induction false} HtmlRejected(content: seq<byte>)
    requires HasPrefixIgnoringCase(LStrip(content), DoctypeHtml) || HasPrefixIgnoringCase(LStrip(content), HtmlTag)
    ensures !LooksLikeXml(content)
  {
    LooksLikeXmlExactly(content);
  }

  /** An accepted body is long enough and has '<' right after its leading whitespace. */
  lemma {:induction false} AcceptedShape(content: seq<byte>)
    requires LooksLikeXml(content)
    ensures |content| >= MinLength
    ensures exists k :: 0 <= k < |content| && content[k] == LT && forall i :: 0 <= i < k ==> IsSpace(content[i])
  {
    LooksLikeXmlExactly(content);
    var rest := LStrip(content);
    var k := |content| - |rest|;
    assert content[k] == rest[0];
  }

  /** Two byte strings that agree up to ASCII letter case. */
  predicate SameIgnoringCase(a: seq<byte>, b: seq<byte>) {
    |a| == |b| && forall i :: 0 <= i < |a| ==> ToLower(a[i]) == ToLower(b[i])
  }

  lemma {:induction false} LStripIgnoresCase(a: seq<byte>, b: seq<byte>)
    requires SameIgnoringCase(a, b)
    ensures SameIgnoringCase(LStrip(a), LStrip(b))
  {
    if |a| > 0 {
      assert IsSpace(a[0]) <==> IsSpace(b[0]) by {
        assert IsSpace(a[0]) <==> IsSpace(ToLower(a[0]));
        assert IsSpace(b[0]) <==> IsSpace(ToLower(b[0]));
      }
      if IsSpace(a[0]) {
        LStripIgnoresCase(a[1..], b[1..]);
      }
    }
  }

  /** Changing the case of ASCII letters never changes the verdict. */
  lemma {:induction false} VerdictIgnoresCase(a: seq<byte>, b: seq<byte>)
    requires SameIgnoringCase(a, b)
    ensures LooksLikeXml(a) == LooksLikeXml(b)
  {
    LStripIgnoresCase(a, b);
    LooksLikeXmlExactly(a);
    LooksLikeXmlExactly(b);
    var ra, rb := LStrip(a), LStrip(b);
    if |ra| > 0 {
      assert ra[0] == LT <==> rb[0] == LT by {
        assert ra[0] == LT <==> ToLower(ra[0]) == LT;
        assert rb[0] == LT <==> ToLower(rb[0]) == LT;
      }
    }
    assert HasPrefixIgnoringCase(ra, DoctypeHtml) == HasPrefixIgnoringCase(rb, DoctypeHtml);
    assert HasPrefixIgnoringCase(ra, HtmlTag) == HasPrefixIgnoringCase(rb, HtmlTag);
  }

  /** With the length fixed, only the first 500 bytes after the leading whitespace matter. */
  lemma HeadDecides(a: seq<byte>, b: seq<byte>)
    requires |a| == |b|
    requires Take(LStrip(a), HeadLength) == Take(LStrip(b), HeadLength)
    ensures LooksLikeXml(a) == LooksLikeXml(b)
  {
  }
}
