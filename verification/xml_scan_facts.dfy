/**
  How the scanner of XmlParseBuffer reads the pieces XmlDumpBranch writes:
  a run of blanks, a name, a string up to a terminator, and each of the
  markup forms a dump contains.
*/
module XmlScanFacts {
  import opened Wrappers
  import opened XmlTree
  import opened XmlScan
  import opened XmlDump

  /** The buffer holds the text `s` from index `p` on: `StartsAt`, stated
      one character at a time so that a proof looks only at the characters
      it needs. */
  predicate Has(buf: string, p: nat, s: string)
  {
    p + |s| <= |buf| && forall i | 0 <= i < |s| :: SameAt(buf, p, s, i)
  }

  /** The character `i` of `s` is the buffer's character `p + i`. A proof
      asks for the characters it needs by naming them in this form. */
  predicate SameAt(buf: string, p: nat, s: string, i: nat)
  {
    i < |s| && p + i < |buf| && buf[p + i] == s[i]
  }

  /** `Has` character by character. */
  lemma HasChars(buf: string, p: nat, s: string)
    ensures Has(buf, p, s) <==> p + |s| <= |buf| && forall i | 0 <= i < |s| :: buf[p + i] == s[i]
  {
    if Has(buf, p, s) {
      forall i | 0 <= i < |s| ensures buf[p + i] == s[i] {
        assert SameAt(buf, p, s, i);
      }
    }
  }

  /** `Has` is `StartsAt`. */
  lemma HasStartsAt(buf: string, p: nat, s: string)
    ensures Has(buf, p, s) <==> StartsAt(buf, p, s)
  {
    HasChars(buf, p, s);
    if StartsAt(buf, p, s) {
      forall i | 0 <= i < |s|
        ensures buf[p + i] == s[i]
      {
        assert buf[p..p + |s|][i] == buf[p + i];
      }
    }
    if Has(buf, p, s) {
      assert buf[p..p + |s|] == s;
    }
  }

  /** A text followed by another is the first text, then the second. */
  lemma HasConcat(buf: string, p: nat, a: string, b: string)
    ensures Has(buf, p, a + b) <==> Has(buf, p, a) && Has(buf, p + |a|, b)
  {
    HasChars(buf, p, a + b);
    HasChars(buf, p, a);
    HasChars(buf, p + |a|, b);
    if Has(buf, p, a + b) {
      forall i | 0 <= i < |a| ensures buf[p + i] == a[i] {
        assert (a + b)[i] == a[i];
      }
      forall i | 0 <= i < |b| ensures buf[p + |a| + i] == b[i] {
        assert (a + b)[|a| + i] == b[i];
      }
    }
    if Has(buf, p, a) && Has(buf, p + |a|, b) {
      forall i | 0 <= i < |a + b| ensures buf[p + i] == (a + b)[i] {
        if i >= |a| {
          assert buf[p + |a| + (i - |a|)] == b[i - |a|];
        }
      }
    }
  }

  /** One character of the text at `p`. */
  lemma CharAt(buf: string, p: nat, s: string, i: nat)
    requires Has(buf, p, s) && i < |s|
    ensures p + i < |buf| && buf[p + i] == s[i]
  {
    assert SameAt(buf, p, s, i);
  }

  /** A text whose i-th character differs from the buffer's is not there. */
  lemma NotAt(buf: string, p: nat, s: string, i: nat)
    requires i < |s| && p + i < |buf| && buf[p + i] != s[i]
    ensures !StartsAt(buf, p, s)
  {
    HasStartsAt(buf, p, s);
    if Has(buf, p, s) {
      CharAt(buf, p, s, i);
    }
  }

  /** A window of the text at `p` is where `x` is found in the buffer exactly
      when it is found in the text. */
  lemma HasWindow(buf: string, p: nat, s: string, k: nat, x: string)
    requires Has(buf, p, s) && k + |x| <= |s|
    ensures StartsAt(buf, p + k, x) <==> StartsAt(s, k, x)
  {
    HasChars(buf, p, s);
    var u, v := buf[p + k..p + k + |x|], s[k..k + |x|];
    forall j | 0 <= j < |x|
      ensures u[j] == v[j]
    {
      assert buf[p + (k + j)] == s[k + j];
    }
    assert u == v;
  }

  /** Every character of `s` is a blank. */
  predicate BlankText(s: string)
  {
    forall i | 0 <= i < |s| :: s[i] in Blanks
  }

  /** The characters of a run of blanks in the buffer are blanks. */
  lemma BlanksThere(buf: string, p: nat, w: string)
    requires Has(buf, p, w) && BlankText(w)
    ensures p + |w| <= |buf| && forall k | p <= k < p + |w| :: buf[k] in Blanks
  {
    HasChars(buf, p, w);
    forall k | p <= k < p + |w|
      ensures buf[k] in Blanks
    {
      assert buf[p + (k - p)] == w[k - p];
    }
  }

  /** The first character of the text at `p`, and the rest after it. */
  lemma HasFirst(buf: string, p: nat, w: string)
    requires Has(buf, p, w) && |w| > 0
    ensures p < |buf| && buf[p] == w[0] && Has(buf, p + 1, w[1..])
  {
    assert w == [w[0]] + w[1..];
    HasConcat(buf, p, [w[0]], w[1..]);
    CharAt(buf, p, w, 0);
  }

  /** SKIP_BLANKS over a run of blanks stops at the first character after it. */
  lemma {:induction false} SkipOver(buf: string, p: nat, w: string)
    requires Has(buf, p, w) && BlankText(w) && At(buf, p + |w|) !in Blanks
    ensures SkipBlanks(buf, p) == p + |w|
    decreases |w|
  {
    if |w| > 0 {
      assert w[0] in Blanks;
      HasFirst(buf, p, w);
      SkipOver(buf, p + 1, w[1..]);
    }
  }

  /** SKIP_BLANKS gives the same index from anywhere inside a run of blanks. */
  lemma {:induction false} SkipFromInside(buf: string, p: nat, w: string)
    requires Has(buf, p, w) && BlankText(w)
    ensures p + |w| <= |buf| && SkipBlanks(buf, p) == SkipBlanks(buf, p + |w|)
    decreases |w|
  {
    if |w| > 0 {
      assert w[0] in Blanks;
      HasFirst(buf, p, w);
      SkipFromInside(buf, p + 1, w[1..]);
    }
  }

  /** A walk to a stop character crosses text free of stops and halts on the
      stop that follows it. */
  lemma {:induction false} ScanOver(buf: string, p: nat, w: string, stops: set<char>)
    requires Has(buf, p, w) && p + |w| < |buf| && buf[p + |w|] in stops
    requires forall i | 0 <= i < |w| :: w[i] !in stops
    ensures ScanTo(buf, p, stops) == p + |w|
    decreases |w|
  {
    if |w| > 0 {
      assert w[0] !in stops;
      assert forall i | 0 <= i < |w| - 1 :: w[1..][i] == w[i + 1];
      HasFirst(buf, p, w);
      ScanOver(buf, p + 1, w[1..], stops);
    }
  }

  /** `pat` does not occur in `w + pat` before the end of `w`: strstr over
      `w + pat` finds the occurrence at the end. */
  predicate NoEarlyMatch(w: string, pat: string)
  {
    forall k | 0 <= k < |w| :: !StartsAt(w + pat, k, pat)
  }

  /** strstr does not find a terminator that starts early in a text. */
  lemma NoMatchBefore(buf: string, p: nat, w: string, pat: string)
    requires Has(buf, p, w + pat) && NoEarlyMatch(w, pat)
    ensures forall k | p <= k < p + |w| :: !StartsAt(buf, k, pat)
  {
    forall k | p <= k < p + |w|
      ensures !StartsAt(buf, k, pat)
    {
      HasWindow(buf, p, w + pat, k - p, pat);
    }
  }

  /** The terminator is there at the end of the text. */
  lemma MatchAtEnd(buf: string, p: nat, w: string, pat: string)
    requires Has(buf, p, w + pat)
    ensures p + |w| + |pat| <= |buf| && StartsAt(buf, p + |w|, pat)
  {
    HasWindow(buf, p, w + pat, |w|, pat);
    assert (w + pat)[|w|..|w| + |pat|] == pat;
    HasConcat(buf, p, w, pat);
  }

  /** strstr from `p` gives the first of the occurrences, found at `k`. */
  lemma FindFirst(buf: string, p: nat, k: nat, pat: string)
    requires p <= k && k + |pat| <= |buf| && StartsAt(buf, k, pat)
    requires forall j | p <= j < k :: !StartsAt(buf, j, pat)
    ensures Find(buf, p, pat) == Some(k)
    decreases k - p
  {
    if p < k {
      FindFirst(buf, p + 1, k, pat);
    }
  }

  /** strstr finds the terminator that follows a text in which it does not
      start early. */
  lemma FindOver(buf: string, p: nat, w: string, pat: string)
    requires Has(buf, p, w + pat) && NoEarlyMatch(w, pat)
    ensures Find(buf, p, pat) == Some(p + |w|)
  {
    NoMatchBefore(buf, p, w, pat);
    MatchAtEnd(buf, p, w, pat);
    FindFirst(buf, p, p + |w|, pat);
  }

  /** A name a start tag can carry so that it reads back: not empty, free of
      blanks and `>`, not starting like an end tag, a declaration or a
      processing instruction, and not ending in `/`. */
  predicate TagName(s: string)
  {
    && |s| > 0 && s[0] !in {'/', '!', '?'} && s[|s| - 1] != '/'
    && forall i | 0 <= i < |s| :: s[i] !in Blanks && s[i] != '>'
  }

  /** An attribute that reads back: a name free of `=`, `>`, `/` and blanks,
      and a value free of `"`. */
  predicate AttrOk(a: Attribute)
  {
    && (forall i | 0 <= i < |a.name| :: a.name[i] !in {'=', '>', '/'} && a.name[i] !in Blanks)
    && (forall i | 0 <= i < |a.value| :: a.value[i] != '"')
  }

  predicate AttrsOk(attrs: seq<Attribute>)
  {
    forall i | 0 <= i < |attrs| :: AttrOk(attrs[i])
  }

  /** An end tag is read as a Close of its name, resuming on the character
      after the `>`. */
  lemma ReadClose(buf: string, p: nat, name: string)
    requires 1 <= p <= |buf| && buf[p - 1] == '<' && Has(buf, p, "/" + name + ">")
    requires TagName(name)
    ensures ScanMarkup(buf, p) == Close(name, p + |name| + 2)
  {
    assert "/" + name + ">" == "/" + (name + ">");
    HasConcat(buf, p, "/", name + ">");
    HasConcat(buf, p + 1, name, ">");
    CharAt(buf, p, "/", 0);
    CharAt(buf, p + 1 + |name|, ">", 0);
    CharAt(buf, p + 1, name, 0);
    SkipOver(buf, p + 1, "");
    ScanOver(buf, p + 1, name, {'>'});
    HasStartsAt(buf, p + 1, name);
  }

  /** The markup scanner on the pieces of a comment. */
  lemma ScanComment(buf: string, p: nat, v: string)
    requires 1 <= p && p + 3 + |v| <= |buf| && buf[p - 1] == '<' && buf[p] == '!' && buf[p + 1] == '-'
    requires StartsAt(buf, p, "!--")
    requires Find(buf, p + 3, "-->") == Some(p + 3 + |v|) && buf[p + 3..p + 3 + |v|] == v
    ensures ScanMarkup(buf, p) == Special(Comment, v, p + |v| + 6)
  {
    NotAt(buf, p, "!NOTATION", 1);
    NotAt(buf, p, "!ATTLIST", 1);
    NotAt(buf, p, "!ENTITY", 1);
  }

  /** A comment is read as a COMMENT special with its text verbatim. */
  lemma ReadComment(buf: string, p: nat, v: string)
    requires 1 <= p <= |buf| && buf[p - 1] == '<' && Has(buf, p, "!--" + v + "-->")
    requires NoEarlyMatch(v, "-->")
    ensures ScanMarkup(buf, p) == Special(Comment, v, p + |v| + 6)
  {
    assert "!--" + v + "-->" == "!--" + (v + "-->");
    HasConcat(buf, p, "!--", v + "-->");
    CharAt(buf, p, "!--", 0);
    CharAt(buf, p, "!--", 1);
    HasStartsAt(buf, p, "!--");
    FindOver(buf, p + 3, v, "-->");
    HasConcat(buf, p + 3, v, "-->");
    HasStartsAt(buf, p + 3, v);
    ScanComment(buf, p, v);
  }

  /** The pieces of a CDATA section as the scanner meets them. */
  lemma CDataPieces(buf: string, p: nat, v: string)
    requires Has(buf, p, "![CDATA[" + v + "]]>")
    ensures p + 8 <= |buf| && buf[p] == '!' && buf[p + 1] == '[' && buf[p + 7] == '['
    ensures Has(buf, p, "![") && Has(buf, p + 2, "CDATA") && Has(buf, p + 8, v + "]]>")
  {
    assert "![CDATA[" + v + "]]>" == "![" + ("CDATA" + ("[" + (v + "]]>")));
    HasConcat(buf, p, "![", "CDATA" + ("[" + (v + "]]>")));
    HasConcat(buf, p + 2, "CDATA", "[" + (v + "]]>"));
    HasConcat(buf, p + 7, "[", v + "]]>");
    CharAt(buf, p, "![", 0);
    CharAt(buf, p, "![", 1);
    CharAt(buf, p + 7, "[", 0);
  }

  /** The markup scanner on the pieces of a CDATA section. */
  lemma ScanCData(buf: string, p: nat, v: string)
    requires 1 <= p && p + 8 <= |buf| && buf[p - 1] == '<' && buf[p] == '!' && buf[p + 1] == '['
    requires StartsAt(buf, p, "![") && StartsAt(buf, p + 2, "CDATA") && buf[p + 7] == '['
    requires Find(buf, p + 8, "]]>") == Some(p + 8 + |v|) && buf[p + 8..p + 8 + |v|] == v
    ensures ScanMarkup(buf, p) == Special(CData, v, p + |v| + 11)
  {
    NotAt(buf, p, "!NOTATION", 1);
    NotAt(buf, p, "!ATTLIST", 1);
    NotAt(buf, p, "!ENTITY", 1);
    NotAt(buf, p, "!--", 1);
    assert buf[p + 2..p + 7][0] == buf[p + 2];
    SkipOver(buf, p + 2, "");
    SkipOver(buf, p + 7, "");
  }

  /** A CDATA section is read as a CDATA special with its text verbatim. */
  lemma ReadCData(buf: string, p: nat, v: string)
    requires 1 <= p <= |buf| && buf[p - 1] == '<' && Has(buf, p, "![CDATA[" + v + "]]>")
    requires NoEarlyMatch(v, "]]>")
    ensures ScanMarkup(buf, p) == Special(CData, v, p + |v| + 11)
  {
    CDataPieces(buf, p, v);
    HasStartsAt(buf, p, "![");
    HasStartsAt(buf, p + 2, "CDATA");
    FindOver(buf, p + 8, v, "]]>");
    HasConcat(buf, p + 8, v, "]]>");
    HasStartsAt(buf, p + 8, v);
    ScanCData(buf, p, v);
  }

  /** The markup scanner on the pieces of a `<?...?>`. */
  lemma ScanHead(buf: string, p: nat, h: string)
    requires 1 <= p && p + 1 + |h| <= |buf| && buf[p - 1] == '<' && buf[p] == '?'
    requires Find(buf, p + 1, "?>") == Some(p + 1 + |h|) && buf[p + 1..p + 1 + |h|] == h
    ensures ScanMarkup(buf, p) == Head(h, p + |h| + 3)
  {
    NotAt(buf, p, "!NOTATION", 0);
    NotAt(buf, p, "!ATTLIST", 0);
    NotAt(buf, p, "!ENTITY", 0);
    NotAt(buf, p, "!--", 0);
    NotAt(buf, p, "![", 0);
  }

  /** A `<?...?>` is read as a head with its text verbatim. */
  lemma ReadHead(buf: string, p: nat, h: string)
    requires 1 <= p <= |buf| && buf[p - 1] == '<' && Has(buf, p, "?" + h + "?>")
    requires NoEarlyMatch(h, "?>")
    ensures ScanMarkup(buf, p) == Head(h, p + |h| + 3)
  {
    assert "?" + h + "?>" == "?" + (h + "?>");
    HasConcat(buf, p, "?", h + "?>");
    CharAt(buf, p, "?", 0);
    FindOver(buf, p + 1, h, "?>");
    HasConcat(buf, p + 1, h, "?>");
    HasStartsAt(buf, p + 1, h);
    ScanHead(buf, p, h);
  }

  /** A non-empty attribute list starts with a space and then a character
      that is neither a blank nor `/` nor `>`. */
  lemma AttributesTextStart(attrs: seq<Attribute>)
    requires |attrs| > 0 && AttrOk(attrs[0])
    ensures var t := AttributesText(attrs);
            |t| >= 2 && t[0] == ' ' && t[1] !in Blanks && t[1] !in {'/', '>'}
  {
    var a := attrs[0];
    var t := AttributesText(attrs);
    var rest := "=\"" + a.value + "\"" + (if |attrs| > 1 then " " else "") + AttributesText(attrs[1..]);
    assert t == " " + (a.name + rest);
    if |a.name| > 0 {
      assert t[1] == a.name[0];
    } else {
      assert t[1] == '=';
    }
  }

  /** The pieces of a dumped attribute as the attribute loop meets them:
      the name from `b`, the `="` at `q`, the value from `v` and the closing
      quote at `c`. */
  lemma AttributePieces(buf: string, b: nat, q: nat, v: nat, c: nat, a: Attribute)
    requires Has(buf, b, a.name + "=\"" + a.value + "\"")
    requires q == b + |a.name| && v == q + 2 && c == v + |a.value|
    ensures c < |buf| && Has(buf, b, a.name) && buf[q] == '=' && buf[q + 1] == '"'
    ensures Has(buf, v, a.value) && buf[c] == '"'
  {
    assert a.name + "=\"" + a.value + "\"" == a.name + ("=\"" + (a.value + "\""));
    HasConcat(buf, b, a.name, "=\"" + (a.value + "\""));
    HasConcat(buf, q, "=\"", a.value + "\"");
    CharAt(buf, q, "=\"", 0);
    CharAt(buf, q, "=\"", 1);
    HasConcat(buf, v, a.value, "\"");
    CharAt(buf, c, "\"", 0);
  }

  /** The walk over an attribute name stops on the `=` after it. */
  lemma ScanAttributeName(buf: string, b: nat, q: nat, a: Attribute)
    requires Has(buf, b, a.name) && AttrOk(a) && q == b + |a.name| && q < |buf| && buf[q] == '='
    ensures ScanTo(buf, b, {'='} + Blanks) == q && buf[b..q] == a.name
  {
    ScanOver(buf, b, a.name, {'='} + Blanks);
    HasStartsAt(buf, b, a.name);
  }

  /** The walk over an attribute value stops on the closing quote. */
  lemma ScanAttributeValue(buf: string, v: nat, c: nat, a: Attribute)
    requires Has(buf, v, a.value) && AttrOk(a) && c == v + |a.value| && c < |buf| && buf[c] == '"'
    ensures ScanTo(buf, v, {'"'}) == c && buf[v..c] == a.value
  {
    ScanOver(buf, v, a.value, {'"'});
    HasStartsAt(buf, v, a.value);
  }

  /** One pass of the attribute loop over the pieces of an attribute. */
  lemma StepOverAttribute(buf: string, b: nat, q: nat, v: nat, c: nat, a: Attribute)
    requires b < |buf| && buf[b] != '>' && v == q + 2 && v <= c < |buf|
    requires ScanTo(buf, b, {'='} + Blanks) == q && buf[q] == '=' && buf[q + 1] == '"'
    requires ScanTo(buf, v, {'"'}) == c && buf[b..q] == a.name && buf[v..c] == a.value
    ensures AttributeStep(buf, b) == (Some(a), SkipBlanks(buf, c + 1))
  {
    SkipOver(buf, q, "");
    SkipOver(buf, q + 1, "");
    assert {buf[q + 1]} == {'"'};
  }

  /** One pass of the attribute loop reads back one dumped attribute and
      resumes after the blanks that follow its closing quote at `e - 1`. */
  lemma ReadOneAttribute(buf: string, b: nat, e: nat, a: Attribute)
    requires Has(buf, b, a.name + "=\"" + a.value + "\"") && AttrOk(a)
    requires b < |buf| && buf[b] != '>' && e == b + |a.name| + |a.value| + 3
    ensures AttributeStep(buf, b) == (Some(a), SkipBlanks(buf, e))
  {
    var q := b + |a.name|;
    var c := q + 2 + |a.value|;
    ScanAttributeParts(buf, b, q, c, a);
    StepOverAttribute(buf, b, q, q + 2, c, a);
  }

  /** The walks of the attribute loop over a dumped attribute stop on its
      `=` and on its closing quote. */
  lemma ScanAttributeParts(buf: string, b: nat, q: nat, c: nat, a: Attribute)
    requires Has(buf, b, a.name + "=\"" + a.value + "\"") && AttrOk(a)
    requires q == b + |a.name| && c == q + 2 + |a.value|
    ensures c < |buf| && buf[q] == '=' && buf[q + 1] == '"'
    ensures ScanTo(buf, b, {'='} + Blanks) == q && buf[b..q] == a.name
    ensures ScanTo(buf, q + 2, {'"'}) == c && buf[q + 2..c] == a.value
  {
    AttributePieces(buf, b, q, q + 2, c, a);
    ScanAttributeName(buf, b, q, a);
    ScanAttributeValue(buf, q + 2, c, a);
  }

  /** The length of the first attribute's text, its separating space
      included. */
  function FirstAttributeLength(attrs: seq<Attribute>): nat
    requires |attrs| > 0
  {
    1 + |attrs[0].name| + |attrs[0].value| + 3 + (if |attrs| > 1 then 1 else 0)
  }

  /** The text of a non-empty attribute list followed by the `>`, grouped
      the way the attribute loop reads it. */
  lemma AttributesTextCons(attrs: seq<Attribute>)
    requires |attrs| > 0
    ensures var a := attrs[0];
            AttributesText(attrs) + ">"
            == " " + ((a.name + "=\"" + a.value + "\"")
                      + ((if |attrs| > 1 then " " else "") + (AttributesText(attrs[1..]) + ">")))
  {
    var a := attrs[0];
    var one := a.name + "=\"" + a.value + "\"";
    var sep := if |attrs| > 1 then " " else "";
    var rest := AttributesText(attrs[1..]);
    Regroup(" ", a.name, "=\"", a.value, "\"");
    assert AttributesText(attrs) == " " + one + sep + rest;
    Regroup(" ", one, sep, rest, ">");
  }

  /** Regrouping a concatenation of five texts. */
  lemma Regroup(a: string, b: string, c: string, d: string, e: string)
    ensures a + b + c + d + e == a + (b + c + d + e)
    ensures a + b + c + d + e == a + (b + (c + (d + e)))
  {
  }

  /** The text of a non-empty attribute list, cut where the loop sees it: a
      space, the first attribute up to `e`, the separator, and the rest of
      the list from `r`. */
  lemma AttributesSplit(buf: string, p: nat, e: nat, r: nat, attrs: seq<Attribute>)
    requires |attrs| > 0 && Has(buf, p, AttributesText(attrs) + ">")
    requires e == p + 1 + |attrs[0].name| + |attrs[0].value| + 3 && r == p + FirstAttributeLength(attrs)
    ensures var a := attrs[0];
            && Has(buf, p, " ") && Has(buf, p + 1, a.name + "=\"" + a.value + "\"")
            && Has(buf, e, if |attrs| > 1 then " " else "")
            && Has(buf, r, AttributesText(attrs[1..]) + ">")
  {
    var a := attrs[0];
    var sep := if |attrs| > 1 then " " else "";
    var rest := AttributesText(attrs[1..]);
    var one := a.name + "=\"" + a.value + "\"";
    AttributesTextCons(attrs);
    HasConcat(buf, p, " ", one + (sep + (rest + ">")));
    HasConcat(buf, p + 1, one, sep + (rest + ">"));
    HasConcat(buf, e, sep, rest + ">");
  }

  /** A dumped attribute list, empty or not, followed by the `>`: the blanks
      before it lead to a name or to the `>`, never to a `/`. */
  lemma ListStart(buf: string, p: nat, attrs: seq<Attribute>)
    requires Has(buf, p, AttributesText(attrs) + ">") && AttrsOk(attrs)
    ensures p <= |buf| && At(buf, SkipBlanks(buf, p)) != '/'
  {
    var r := AttributesText(attrs);
    if |attrs| > 0 {
      AttributesTextStart(attrs);
      HasConcat(buf, p, r, ">");
      CharAt(buf, p, r, 0);
      CharAt(buf, p, r, 1);
      SkipOver(buf, p, " ");
    } else {
      assert r + ">" == ">";
      CharAt(buf, p, ">", 0);
      SkipOver(buf, p, "");
    }
  }

  /** What the attribute loop meets after the first attribute: the blanks,
      then either the `>` or the next name, never `/>`. */
  lemma AfterFirstAttribute(buf: string, p: nat, e: nat, r: nat, attrs: seq<Attribute>)
    requires |attrs| > 0 && AttrsOk(attrs) && Has(buf, p, AttributesText(attrs) + ">")
    requires e == p + 1 + |attrs[0].name| + |attrs[0].value| + 3 && r == p + FirstAttributeLength(attrs)
    ensures r <= |buf| && At(buf, SkipBlanks(buf, r)) != '/' && SkipBlanks(buf, e) == SkipBlanks(buf, r)
    ensures Has(buf, p, " ") && Has(buf, p + 1, attrs[0].name + "=\"" + attrs[0].value + "\"")
    ensures Has(buf, r, AttributesText(attrs[1..]) + ">")
  {
    AttributesSplit(buf, p, e, r, attrs);
    SkipFromInside(buf, e, if |attrs| > 1 then " " else "");
    ListStart(buf, r, attrs[1..]);
  }

  /** A dumped attribute list, as the attribute loop meets it: a space, then
      the first attribute. */
  lemma ListOpening(buf: string, p: nat, attrs: seq<Attribute>)
    requires |attrs| > 0 && Has(buf, p, AttributesText(attrs) + ">") && AttrsOk(attrs)
    ensures p + 1 < |buf| && SkipBlanks(buf, p) == p + 1 && buf[p + 1] != '>'
  {
    AttributesTextStart(attrs);
    var t := AttributesText(attrs);
    HasConcat(buf, p, t, ">");
    CharAt(buf, p, t, 0);
    CharAt(buf, p, t, 1);
    SkipOver(buf, p, " ");
  }

  /** One turn of the attribute loop that reads an attribute and meets no
      `/>` after it. */
  lemma ScanAttributesStep(buf: string, p: nat, acc: seq<Attribute>, a: Attribute, q: nat)
    requires p < |buf| && buf[p] != '>'
    requires AttributeStep(buf, p) == (Some(a), q) && At(buf, q) != '/'
    ensures ScanAttributes(buf, p, acc, false) == ScanAttributes(buf, q, acc + [a], false)
  {
  }

  /** The attribute loop stops on a `>`. */
  lemma ScanAttributesEnd(buf: string, p: nat, acc: seq<Attribute>)
    requires p < |buf| && buf[p] == '>'
    ensures ScanAttributes(buf, p, acc, false) == AttrScan(acc, false, p)
  {
  }

  /** The attribute loop on an empty list stops on the `>`. */
  lemma ReadNoAttributes(buf: string, p: nat, acc: seq<Attribute>)
    requires Has(buf, p, ">")
    ensures SkipBlanks(buf, p) == p < |buf|
    ensures ScanAttributes(buf, p, acc, false) == AttrScan(acc, false, p)
  {
    CharAt(buf, p, ">", 0);
    SkipOver(buf, p, "");
    ScanAttributesEnd(buf, p, acc);
  }

  /** What the attribute loop meets on a non-empty dumped list: the first
      attribute after one blank, then the blanks before the rest of the
      list at `r`, which does not start with `/`. */
  lemma FirstAttributeFacts(buf: string, p: nat, r: nat, attrs: seq<Attribute>)
    requires |attrs| > 0 && Has(buf, p, AttributesText(attrs) + ">") && AttrsOk(attrs)
    requires r == p + FirstAttributeLength(attrs)
    ensures && SkipBlanks(buf, p) == p + 1 && p + 1 < |buf| && buf[p + 1] != '>'
            && r <= |buf| && At(buf, SkipBlanks(buf, r)) != '/'
            && AttributeStep(buf, p + 1) == (Some(attrs[0]), SkipBlanks(buf, r))
            && Has(buf, r, AttributesText(attrs[1..]) + ">") && AttrsOk(attrs[1..])
  {
    var e := p + 1 + |attrs[0].name| + |attrs[0].value| + 3;
    AfterFirstAttribute(buf, p, e, r, attrs);
    ListOpening(buf, p, attrs);
    ReadOneAttribute(buf, p + 1, e, attrs[0]);
  }

  /** Splitting off the head of a non-empty list. */
  lemma ConsSplit(acc: seq<Attribute>, attrs: seq<Attribute>)
    requires |attrs| > 0
    ensures acc + [attrs[0]] + attrs[1..] == acc + attrs
  {
  }

  /** The text of an attribute list is the first attribute's, then the rest's. */
  lemma AttributesTextLength(attrs: seq<Attribute>)
    requires |attrs| > 0
    ensures |AttributesText(attrs)| == FirstAttributeLength(attrs) + |AttributesText(attrs[1..])|
  {
  }

  /** The attribute loop over a non-empty dumped list ends where the loop
      over its tail, from `r`, ends. */
  lemma ReadAttributesCons(buf: string, p: nat, r: nat, attrs: seq<Attribute>, acc: seq<Attribute>, s: AttrScan)
    requires |attrs| > 0 && Has(buf, p, AttributesText(attrs) + ">") && AttrsOk(attrs)
    requires r == p + FirstAttributeLength(attrs)
    requires r <= |buf| && ScanAttributes(buf, SkipBlanks(buf, r), acc + [attrs[0]], false) == s
    ensures ScanAttributes(buf, SkipBlanks(buf, p), acc, false) == s
  {
    FirstAttributeFacts(buf, p, r, attrs);
    ScanAttributesStep(buf, p + 1, acc, attrs[0], SkipBlanks(buf, r));
  }

  /** The attribute loop reads back a dumped attribute list, stopping on the
      `>` after it. */
  lemma {:induction false} ReadAttributes(buf: string, p: nat, attrs: seq<Attribute>, acc: seq<Attribute>)
    requires Has(buf, p, AttributesText(attrs) + ">") && AttrsOk(attrs)
    ensures SkipBlanks(buf, p) <= p + |AttributesText(attrs)| < |buf|
    ensures ScanAttributes(buf, SkipBlanks(buf, p), acc, false)
            == AttrScan(acc + attrs, false, p + |AttributesText(attrs)|)
    decreases |attrs|
  {
    if |attrs| == 0 {
      assert AttributesText(attrs) + ">" == ">";
      ReadNoAttributes(buf, p, acc);
      assert acc + attrs == acc;
    } else {
      var r, acc' := p + FirstAttributeLength(attrs), acc + [attrs[0]];
      FirstAttributeFacts(buf, p, r, attrs);
      ReadAttributes(buf, r, attrs[1..], acc');
      ReadAttributesCons(buf, p, r, attrs, acc, AttrScan(acc' + attrs[1..], false, r + |AttributesText(attrs[1..])|));
      ConsSplit(acc, attrs);
      AttributesTextLength(attrs);
    }
  }

  /** The markup scanner hands a `<` followed by a name character to the
      start-tag scanner. */
  lemma ScanToOpen(buf: string, p: nat)
    requires 1 <= p < |buf| && buf[p - 1] == '<' && buf[p] !in {'/', '!', '?'}
    ensures ScanMarkup(buf, p) == ScanOpen(buf, p)
  {
    NotAt(buf, p, "!NOTATION", 0);
    NotAt(buf, p, "!ATTLIST", 0);
    NotAt(buf, p, "!ENTITY", 0);
    NotAt(buf, p, "!--", 0);
    NotAt(buf, p, "![", 0);
  }

  /** The start-tag scanner on the pieces of a start tag whose name ends at
      `e` and whose attribute loop stops on the `>` at `at`. */
  lemma ScanStartTag(buf: string, p: nat, e: nat, name: string, attrs: seq<Attribute>, at: nat)
    requires 1 <= p < e < |buf| && buf[p - 1] == '<' && SkipBlanks(buf, p) == p
    requires ScanTo(buf, p, {'>'} + Blanks) == e && buf[e - 1] != '/' && buf[p..e] == name
    requires SkipBlanks(buf, e) < |buf|
    requires ScanAttributes(buf, SkipBlanks(buf, e), [], false) == AttrScan(attrs, false, at)
    ensures ScanOpen(buf, p) == Open(name, attrs, false, at)
  {
  }

  /** A dumped attribute list starts with a blank or with the `>`. */
  lemma AttributesFirstChar(buf: string, p: nat, attrs: seq<Attribute>)
    requires Has(buf, p, AttributesText(attrs) + ">")
    ensures p < |buf| && buf[p] in {'>'} + Blanks
  {
    var t := AttributesText(attrs);
    if |attrs| > 0 {
      assert t[0] == ' ';
    }
    CharAt(buf, p, t + ">", 0);
  }

  /** The walks over a dumped tag name. */
  lemma TagNameWalks(buf: string, p: nat, name: string)
    requires Has(buf, p, name) && TagName(name) && p + |name| < |buf| && buf[p + |name|] in {'>'} + Blanks
    ensures var e := p + |name|;
            && p < e && SkipBlanks(buf, p) == p && buf[e - 1] != '/'
            && ScanTo(buf, p, {'>'} + Blanks) == e && buf[p..e] == name
  {
    CharAt(buf, p, name, 0);
    CharAt(buf, p, name, |name| - 1);
    SkipOver(buf, p, "");
    ScanOver(buf, p, name, {'>'} + Blanks);
    HasStartsAt(buf, p, name);
  }

  /** The pieces of a dumped start tag whose name ends at `e`. */
  lemma StartTagPieces(buf: string, p: nat, e: nat, name: string, attrs: seq<Attribute>)
    requires Has(buf, p, name + AttributesText(attrs) + ">") && TagName(name) && e == p + |name|
    ensures && p < e < |buf| && buf[p] == name[0] && SkipBlanks(buf, p) == p && buf[e - 1] != '/'
            && ScanTo(buf, p, {'>'} + Blanks) == e && buf[p..e] == name
            && Has(buf, e, AttributesText(attrs) + ">")
  {
    var t := AttributesText(attrs);
    assert name + t + ">" == name + (t + ">");
    HasConcat(buf, p, name, t + ">");
    AttributesFirstChar(buf, e, attrs);
    TagNameWalks(buf, p, name);
  }

  /** The attribute loop of a start tag reads back a dumped attribute list
      and stops on the `>` at `at`. */
  lemma ReadAttributeList(buf: string, e: nat, at: nat, attrs: seq<Attribute>)
    requires Has(buf, e, AttributesText(attrs) + ">") && AttrsOk(attrs) && at == e + |AttributesText(attrs)|
    ensures SkipBlanks(buf, e) < |buf|
    ensures ScanAttributes(buf, SkipBlanks(buf, e), [], false) == AttrScan(attrs, false, at)
  {
    ReadAttributes(buf, e, attrs, []);
    assert [] + attrs == attrs;
  }

  /** The start-tag scanner on a dumped start tag whose name ends at `e` and
      whose `>` is at `at`. */
  lemma ScanDumpedStartTag(buf: string, p: nat, e: nat, at: nat, name: string, attrs: seq<Attribute>)
    requires 1 <= p <= |buf| && buf[p - 1] == '<' && Has(buf, p, name + AttributesText(attrs) + ">")
    requires TagName(name) && AttrsOk(attrs) && e == p + |name| && at == e + |AttributesText(attrs)|
    ensures p < |buf| && buf[p] == name[0]
    ensures ScanOpen(buf, p) == Open(name, attrs, false, at)
  {
    StartTagPieces(buf, p, e, name, attrs);
    ReadAttributeList(buf, e, at, attrs);
    ScanStartTag(buf, p, e, name, attrs, at);
  }

  /** A dumped start tag is read as an Open of its name and attributes, not
      closed at once, stopping on its `>` at `at`. */
  lemma ReadOpen(buf: string, p: nat, at: nat, name: string, attrs: seq<Attribute>)
    requires 1 <= p <= |buf| && buf[p - 1] == '<' && Has(buf, p, name + AttributesText(attrs) + ">")
    requires TagName(name) && AttrsOk(attrs) && at == p + |name| + |AttributesText(attrs)|
    ensures ScanMarkup(buf, p) == Open(name, attrs, false, at)
  {
    ScanDumpedStartTag(buf, p, p + |name|, at, name, attrs);
    ScanToOpen(buf, p);
  }
}
