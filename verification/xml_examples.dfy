/**
  What the main loop of XmlParseBuffer does with single pieces of markup and
  with a few small documents, and what XmlDump writes for a small context.
  The general lemmas state one pass of the loop from a `<` or from text; the
  documents chain such passes from the start of the buffer to its NUL.
*/
module XmlExamples {
  import opened Wrappers
  import opened XmlTree
  import opened XmlScan
  import opened XmlDump
  import opened XmlParse
  import opened XmlRoundTrip

  // ---------------------------------------------------------------------
  // One pass.
  // ---------------------------------------------------------------------

  /** A pass that starts on a character that is not a blank handles that
      character. */
  lemma StepFrom(buf: string, q: nat, st: Phase, xml: Xml)
    requires q < |buf| && buf[q] !in Blanks && ValidPos(xml.roots, xml.cursor)
    ensures Step(buf, q, st, xml) == Dispatch(buf, q, st, xml)
  {
  }

  /** A closed start tag (`<a/>`, `<a k="v"/>`) runs the start handler and
      then the end handler on its name; the state becomes UNIQUE. */
  lemma DispatchClosed(buf: string, q: nat, st: Phase, xml: Xml, name: string, attrs: seq<Attribute>, at: nat)
    requires q < |buf| && buf[q] == '<' && ValidPos(xml.roots, xml.cursor) && name != "" && at < |buf|
    requires ScanMarkup(buf, q + 1) == Open(name, attrs, true, at)
    ensures Dispatch(buf, q, st, xml)
            == Continue(at + 1, ElementUnique, EndHandler(StartHandler(xml, name, attrs).1, name).1)
  {
  }

  /** The start handler followed by the end handler on the same name leaves
      one node with no children or value below the cursor, and the cursor
      where it was. */
  lemma ClosedTagAddsLeaf(xml: Xml, name: string, attrs: seq<Attribute>)
    requires ValidPos(xml.roots, xml.cursor) && name != ""
    ensures EndHandler(StartHandler(xml, name, attrs).1, name)
            == (NoErr, AppendUnderCursor(xml, Node(name, ChildPath(CursorNode(xml), name), "", Simple, attrs, [])))
  {
    var s := StartHandler(xml, name, attrs).1;
    assert s.cursor[..|s.cursor| - 1] == xml.cursor;
  }

  /** An end tag met with a NULL cursor ends the parse with XML_GENERIC_ERR
      and the context as it was. */
  lemma CloseWithoutCursorFails(buf: string, q: nat, st: Phase, xml: Xml, name: string, next: nat)
    requires q < |buf| && buf[q] == '<' && ValidPos(xml.roots, xml.cursor) && xml.cursor == []
    requires ScanMarkup(buf, q + 1) == Close(name, next)
    ensures Dispatch(buf, q, st, xml) == Done(Finished(GenericErr, xml))
  {
  }

  /** `<![` followed (after blanks) by anything but `CDATA` is broken
      markup. */
  lemma BadSectionScan(buf: string, q: nat)
    requires q + 2 < |buf| && buf[q] == '<' && buf[q + 1] == '!' && buf[q + 2] == '['
    requires SkipBlanks(buf, q + 3) < |buf| && !StartsAt(buf, SkipBlanks(buf, q + 3), "CDATA")
    ensures ScanMarkup(buf, q + 1) == Broken
  {
    assert buf[q + 1..q + 3] == "![";
    Mismatch(buf, q + 1, "!ENTITY", 1);
    Mismatch(buf, q + 1, "!NOTATION", 1);
    Mismatch(buf, q + 1, "!ATTLIST", 1);
    Mismatch(buf, q + 1, "!--", 1);
  }

  /** Broken markup ends the parse with XML_PARSER_GENERIC_ERR, whatever the
      state and the context. */
  lemma BrokenFails(buf: string, q: nat, st: Phase, xml: Xml)
    requires q < |buf| && buf[q] == '<' && ValidPos(xml.roots, xml.cursor)
    requires ScanMarkup(buf, q + 1) == Broken
    ensures Dispatch(buf, q, st, xml) == Done(Finished(ParserGenericErr, xml))
  {
  }

  /** Text met in any state but START is passed over one character at a
      time: nothing changes. */
  lemma TextSkipped(buf: string, q: nat, st: Phase, xml: Xml)
    requires q < |buf| && buf[q] != '<' && buf[q] !in Blanks && ValidPos(xml.roots, xml.cursor)
    requires st != ElementStart
    ensures Dispatch(buf, q, st, xml) == Continue(q + 1, st, xml)
  {
  }

  /** A `<` followed by anything but `/`, `!` or `?` opens a start tag. */
  lemma PlainMarkupOpens(buf: string, p: nat)
    requires 1 <= p < |buf| && buf[p - 1] == '<' && buf[p] !in {'/', '!', '?'}
    ensures ScanMarkup(buf, p) == ScanOpen(buf, p)
  {
    forall pat: string | |pat| > 0 && pat[0] == '!'
      ensures !StartsAt(buf, p, pat)
    {
      assert buf[p] != pat[0];
    }
  }

  /** A pattern does not occur where one of its characters differs. */
  lemma Mismatch(buf: string, p: nat, pat: string, i: nat)
    requires i < |pat| && p + i < |buf| && buf[p + i] != pat[i]
    ensures !StartsAt(buf, p, pat)
  {
  }

  // ---------------------------------------------------------------------
  // Closed start tags: `<a/>` and `<a k="v"/>`.
  // ---------------------------------------------------------------------

  lemma ScanClosedTag()
    ensures ScanMarkup("<a/>", 1) == Open("a", [], true, 3)
  {
  }

  /** A closed start tag at the head of the input becomes a root with no
      children and leaves a NULL cursor. */
  lemma ClosedRootStep(buf: string, name: string, attrs: seq<Attribute>, at: nat)
    requires 0 < |buf| && buf[0] == '<' && name != "" && at < |buf|
    requires ScanMarkup(buf, 1) == Open(name, attrs, true, at)
    ensures Step(buf, 0, ElementNone, CreateContext())
            == Continue(at + 1, ElementUnique, Xml([Node(name, name, "", Simple, attrs, [])], [], None))
  {
    DispatchClosedRoot(buf, name, attrs, at);
    StepFrom(buf, 0, ElementNone, CreateContext());
  }

  lemma DispatchClosedRoot(buf: string, name: string, attrs: seq<Attribute>, at: nat)
    requires 0 < |buf| && buf[0] == '<' && name != "" && at < |buf|
    requires ScanMarkup(buf, 1) == Open(name, attrs, true, at)
    ensures Dispatch(buf, 0, ElementNone, CreateContext())
            == Continue(at + 1, ElementUnique, Xml([Node(name, name, "", Simple, attrs, [])], [], None))
  {
    ClosedRootHandlers(name, attrs);
    DispatchClosed(buf, 0, ElementNone, CreateContext(), name, attrs, at);
  }

  /** The start and end handlers of a closed tag in an empty context leave
      the node as the only root and a NULL cursor. */
  lemma ClosedRootHandlers(name: string, attrs: seq<Attribute>)
    requires name != ""
    ensures EndHandler(StartHandler(CreateContext(), name, attrs).1, name).1
            == Xml([Node(name, name, "", Simple, attrs, [])], [], None)
  {
    ClosedTagAddsLeaf(CreateContext(), name, attrs);
    FirstRoot(Node(name, ChildPath(None, name), "", Simple, attrs, []));
  }

  /** A node appended to an empty context is its only root; the path of a
      root is its name. */
  lemma FirstRoot(n: Node)
    ensures AppendUnderCursor(CreateContext(), n) == Xml([n], [], None)
    ensures ChildPath(None, n.name) == n.name
  {
    assert [] + [n] == [n];
  }

  lemma ClosedTagStep()
    ensures Step("<a/>", 0, ElementNone, CreateContext())
            == Continue(4, ElementUnique, Xml([Node("a", "a", "", Simple, [], [])], [], None))
  {
    ScanClosedTag();
    ClosedRootStep("<a/>", "a", [], 3);
  }

  /** A root `a` without value or children, and a NULL cursor. */
  lemma ParseClosedTag()
    ensures Run("<a/>", 0, ElementNone, CreateContext())
            == Finished(NoErr, Xml([Node("a", "a", "", Simple, [], [])], [], None))
  {
    var x := Xml([Node("a", "a", "", Simple, [], [])], [], None);
    ClosedTagStep();
    RunContinue("<a/>", 0, ElementNone, CreateContext(), 4, ElementUnique, x);
    RunEnd("<a/>", ElementUnique, x);
  }

  /** The tag with one attribute. */
  const AttrTag: string := "<a k=\"v\"/>"

  lemma ScanAttributeExample()
    ensures AttributeStep(AttrTag, 3) == (Some(Attribute("k", "v")), 8)
  {
    var buf := AttrTag;
    assert ScanTo(buf, 3, {'='} + Blanks) == 4;
    assert SkipBlanks(buf, 4) == 4;
    assert SkipBlanks(buf, 5) == 5;
    assert ScanTo(buf, 6, {'"'}) == 7;
    assert SkipBlanks(buf, 8) == 8;
    assert buf[3..4] == "k" && buf[6..7] == "v";
  }

  lemma ScanAttributeListExample()
    ensures ScanAttributes(AttrTag, 3, [], false) == AttrScan([Attribute("k", "v")], true, 9)
  {
    ScanAttributeExample();
    assert ScanAttributes(AttrTag, 9, [Attribute("k", "v")], true) == AttrScan([Attribute("k", "v")], true, 9);
  }

  lemma ScanOpenExample()
    ensures ScanOpen(AttrTag, 1) == Open("a", [Attribute("k", "v")], true, 9)
  {
    var buf := AttrTag;
    assert SkipBlanks(buf, 1) == 1;
    assert ScanTo(buf, 1, {'>'} + Blanks) == 2;
    assert SkipBlanks(buf, 2) == 3;
    assert buf[1..2] == "a";
    ScanAttributeListExample();
  }

  lemma ScanClosedTagWithAttribute()
    ensures ScanMarkup(AttrTag, 1) == Open("a", [Attribute("k", "v")], true, 9)
  {
    PlainMarkupOpens(AttrTag, 1);
    ScanOpenExample();
  }

  lemma AttrTagStep()
    ensures Step(AttrTag, 0, ElementNone, CreateContext())
            == Continue(10, ElementUnique, Xml([Node("a", "a", "", Simple, [Attribute("k", "v")], [])], [], None))
  {
    ScanClosedTagWithAttribute();
    ClosedRootStep(AttrTag, "a", [Attribute("k", "v")], 9);
  }

  /** A root `a` holding the attribute, and a NULL cursor. */
  lemma ParseClosedTagWithAttribute()
    ensures Run(AttrTag, 0, ElementNone, CreateContext())
            == Finished(NoErr, Xml([Node("a", "a", "", Simple, [Attribute("k", "v")], [])], [], None))
  {
    var x := Xml([Node("a", "a", "", Simple, [Attribute("k", "v")], [])], [], None);
    AttrTagStep();
    RunContinue(AttrTag, 0, ElementNone, CreateContext(), 10, ElementUnique, x);
    RunEnd(AttrTag, ElementUnique, x);
  }

  // ---------------------------------------------------------------------
  // Errors.
  // ---------------------------------------------------------------------

  /** A pass that ends the parse gives the outcome of the parse. */
  lemma RunDone(buf: string, p: nat, st: Phase, xml: Xml, o: ParseOutcome)
    requires p <= |buf| && ValidPos(xml.roots, xml.cursor) && Step(buf, p, st, xml) == Done(o)
    ensures Run(buf, p, st, xml) == o
  {
    RunUnfold(buf, p, st, xml);
  }

  /** An end tag before any start tag. */
  lemma ParseStrayEndTag()
    ensures Run("</x>", 0, ElementNone, CreateContext()) == Finished(GenericErr, CreateContext())
  {
    var buf := "</x>";
    assert Step(buf, 0, ElementNone, CreateContext()) == Done(Finished(GenericErr, CreateContext())) by {
      assert SkipBlanks(buf, 2) == 2 && ScanTo(buf, 2, {'>'}) == 3;
      assert ScanMarkup(buf, 1) == Close("x", 4);
      StepFrom(buf, 0, ElementNone, CreateContext());
      CloseWithoutCursorFails(buf, 0, ElementNone, CreateContext(), "x", 4);
    }
    RunDone(buf, 0, ElementNone, CreateContext(), Finished(GenericErr, CreateContext()));
  }

  /** A section that is not CDATA. */
  lemma ParseBadSection()
    ensures Run("<![X]>", 0, ElementNone, CreateContext()) == Finished(ParserGenericErr, CreateContext())
  {
    var buf := "<![X]>";
    assert Step(buf, 0, ElementNone, CreateContext()) == Done(Finished(ParserGenericErr, CreateContext())) by {
      assert SkipBlanks(buf, 3) == 3;
      Mismatch(buf, 3, "CDATA", 0);
      BadSectionScan(buf, 0);
      StepFrom(buf, 0, ElementNone, CreateContext());
      BrokenFails(buf, 0, ElementNone, CreateContext());
    }
    RunDone(buf, 0, ElementNone, CreateContext(), Finished(ParserGenericErr, CreateContext()));
  }

  // ---------------------------------------------------------------------
  // A comment inside an element: `<a><!--c--></a>`.
  // ---------------------------------------------------------------------

  const CommentDoc: string := "<a><!--c--></a>"

  /** The node the comment becomes, and its parent before and after it is
      appended. */
  const CommentNode: Node := Node("_fakenode_1_", "a/_fakenode_1_", "c", Comment, [], [])
  const EmptyA: Node := Node("a", "a", "", Simple, [], [])
  const FullA: Node := EmptyA.(children := [CommentNode])

  lemma ScanCommentDocOpen()
    ensures ScanMarkup(CommentDoc, 1) == Open("a", [], false, 2)
  {
    var buf := CommentDoc;
    assert SkipBlanks(buf, 1) == 1 && ScanTo(buf, 1, {'>'} + Blanks) == 2 && SkipBlanks(buf, 2) == 2;
    PlainMarkupOpens(buf, 1);
  }

  lemma ScanCommentDocComment()
    ensures ScanMarkup(CommentDoc, 4) == Special(Comment, "c", 11)
  {
    var buf := CommentDoc;
    Mismatch(buf, 4, "!ENTITY", 1);
    Mismatch(buf, 4, "!NOTATION", 1);
    Mismatch(buf, 4, "!ATTLIST", 1);
    assert buf[4..7] == "!--";
    Mismatch(buf, 7, "-->", 0);
    assert buf[8..11] == "-->";
    assert Find(buf, 8, "-->") == Some(8);
    assert buf[7..8] == "c";
  }

  lemma ScanCommentDocClose()
    ensures ScanMarkup(CommentDoc, 12) == Close("a", 15)
  {
    var buf := CommentDoc;
    assert SkipBlanks(buf, 13) == 13 && ScanTo(buf, 13, {'>'}) == 14;
  }

  lemma CommentNodePath()
    ensures ChildPath(Some(EmptyA), FakeName(Comment)) == CommentNode.path
  {
  }

  /** The start handler on `a` in an empty context. */
  lemma OpenEmptyA()
    ensures StartHandler(CreateContext(), "a", []).1 == Xml([EmptyA], [0], None)
  {
  }

  /** The comment handler below `a`. */
  lemma CommentUnderA()
    ensures ExtraNodeHandler(Xml([EmptyA], [0], None), "c", Comment).1 == Xml([FullA], [0], None)
  {
    CommentNodePath();
    assert ReplaceAt([EmptyA], [0], FullA) == [FullA];
  }

  /** The first start tag `a` of an input, met on a `<`, becomes the only
      root and the cursor. */
  lemma OpenFirstA(buf: string, q: nat, at: nat)
    requires q < |buf| && buf[q] == '<' && at < |buf| && ScanMarkup(buf, q + 1) == Open("a", [], false, at)
    ensures Step(buf, q, ElementNone, CreateContext()) == Continue(at + 1, ElementStart, Xml([EmptyA], [0], None))
  {
    DispatchOpenFirstA(buf, q, at);
    StepFrom(buf, q, ElementNone, CreateContext());
  }

  lemma DispatchOpenFirstA(buf: string, q: nat, at: nat)
    requires q < |buf| && buf[q] == '<' && at < |buf| && ScanMarkup(buf, q + 1) == Open("a", [], false, at)
    ensures Dispatch(buf, q, ElementNone, CreateContext()) == Continue(at + 1, ElementStart, Xml([EmptyA], [0], None))
  {
    DispatchOpen(buf, q, ElementNone, CreateContext(), "a", [], at);
    assert StartHandler(CreateContext(), "a", []).1 == Xml([EmptyA], [0], None) by {
      OpenEmptyA();
    }
  }

  lemma CommentDocFirstStep()
    ensures Step(CommentDoc, 0, ElementNone, CreateContext()) == Continue(3, ElementStart, Xml([EmptyA], [0], None))
  {
    ScanCommentDocOpen();
    OpenFirstA(CommentDoc, 0, 2);
  }

  lemma CommentDocSecondStep()
    ensures Step(CommentDoc, 3, ElementStart, Xml([EmptyA], [0], None)) == Continue(11, ElementStart, Xml([FullA], [0], None))
  {
    ScanCommentDocComment();
    StepFrom(CommentDoc, 3, ElementStart, Xml([EmptyA], [0], None));
    DispatchSpecial(CommentDoc, 3, ElementStart, Xml([EmptyA], [0], None), Comment, "c", 11);
    CommentUnderA();
  }

  lemma CommentDocThirdStep()
    ensures Step(CommentDoc, 11, ElementStart, Xml([FullA], [0], None)) == Continue(15, ElementEnd, Xml([FullA], [], None))
  {
    ScanCommentDocClose();
    StepFrom(CommentDoc, 11, ElementStart, Xml([FullA], [0], None));
    DispatchClose(CommentDoc, 11, ElementStart, Xml([FullA], [0], None), "a", 15);
  }

  lemma CommentDocPasses()
    ensures Leads(CommentDoc, 0, ElementNone, CreateContext(), 3, ElementStart, Xml([EmptyA], [0], None))
    ensures Leads(CommentDoc, 3, ElementStart, Xml([EmptyA], [0], None), 11, ElementStart, Xml([FullA], [0], None))
    ensures Leads(CommentDoc, 11, ElementStart, Xml([FullA], [0], None), 15, ElementEnd, Xml([FullA], [], None))
  {
    CommentDocFirstStep();
    RunContinue(CommentDoc, 0, ElementNone, CreateContext(), 3, ElementStart, Xml([EmptyA], [0], None));
    CommentDocSecondStep();
    RunContinue(CommentDoc, 3, ElementStart, Xml([EmptyA], [0], None), 11, ElementStart, Xml([FullA], [0], None));
    CommentDocThirdStep();
    RunContinue(CommentDoc, 11, ElementStart, Xml([FullA], [0], None), 15, ElementEnd, Xml([FullA], [], None));
  }

  /** The comment becomes a `_fakenode_1_` child of `a`; the cursor stays on
      `a`, so the end tag closes `a`. */
  lemma ParseCommentDoc()
    ensures Run(CommentDoc, 0, ElementNone, CreateContext())
            == Finished(NoErr, Xml([Node("a", "a", "", Simple, [], [CommentNode])], [], None))
  {
    CommentDocPasses();
    RunEnd(CommentDoc, ElementEnd, Xml([FullA], [], None));
  }

  // ---------------------------------------------------------------------
  // Text before the first tag, and text around a value: `x<a> hi </a>`.
  // ---------------------------------------------------------------------

  const TextDoc: string := "x<a> hi </a>"

  const ValuedA: Node := Node("a", "a", "hi", Simple, [], [])

  lemma TrimExample()
    ensures HasText("hi ") && Trim("hi ") == "hi"
  {
    assert "hi " == "" + "hi" + " ";
    TrimBlankPadded("", "hi", " ");
  }

  lemma ScanTextDocOpen()
    ensures ScanMarkup(TextDoc, 2) == Open("a", [], false, 3)
  {
    var buf := TextDoc;
    assert SkipBlanks(buf, 2) == 2 && ScanTo(buf, 2, {'>'} + Blanks) == 3 && SkipBlanks(buf, 3) == 3;
    PlainMarkupOpens(buf, 2);
  }

  lemma ScanTextDocClose()
    ensures ScanMarkup(TextDoc, 9) == Close("a", 12)
  {
    var buf := TextDoc;
    assert SkipBlanks(buf, 10) == 10 && ScanTo(buf, 10, {'>'}) == 11;
  }

  lemma TextDocFirstStep()
    ensures Step(TextDoc, 0, ElementNone, CreateContext()) == Continue(1, ElementNone, CreateContext())
  {
    StepFrom(TextDoc, 0, ElementNone, CreateContext());
    TextSkipped(TextDoc, 0, ElementNone, CreateContext());
  }

  lemma TextDocSecondStep()
    ensures Step(TextDoc, 1, ElementNone, CreateContext()) == Continue(4, ElementStart, Xml([EmptyA], [0], None))
  {
    ScanTextDocOpen();
    OpenFirstA(TextDoc, 1, 3);
  }

  /** The value handler on `a` with the text ` hi `'s last part. */
  lemma ValueInA()
    ensures HasText("hi ")
    ensures ValueHandler(Xml([EmptyA], [0], None), "hi ").1 == Xml([ValuedA], [0], None)
  {
    TrimExample();
    assert ReplaceAt([EmptyA], [0], ValuedA) == [ValuedA];
  }

  lemma TextDocThirdStep()
    ensures Step(TextDoc, 4, ElementStart, Xml([EmptyA], [0], None)) == Continue(8, ElementValue, Xml([ValuedA], [0], None))
  {
    var buf := TextDoc;
    assert SkipBlanks(buf, 4) == 5 && ScanTo(buf, 5, {'<'}) == 8;
    assert buf[5..8] == "hi ";
    DispatchText(buf, 5, Xml([EmptyA], [0], None), 8);
    ValueInA();
  }

  lemma TextDocFourthStep()
    ensures Step(TextDoc, 8, ElementValue, Xml([ValuedA], [0], None)) == Continue(12, ElementEnd, Xml([ValuedA], [], None))
  {
    ScanTextDocClose();
    StepFrom(TextDoc, 8, ElementValue, Xml([ValuedA], [0], None));
    DispatchClose(TextDoc, 8, ElementValue, Xml([ValuedA], [0], None), "a", 12);
  }

  lemma TextDocPasses()
    ensures Leads(TextDoc, 0, ElementNone, CreateContext(), 1, ElementNone, CreateContext())
    ensures Leads(TextDoc, 1, ElementNone, CreateContext(), 4, ElementStart, Xml([EmptyA], [0], None))
    ensures Leads(TextDoc, 4, ElementStart, Xml([EmptyA], [0], None), 8, ElementValue, Xml([ValuedA], [0], None))
    ensures Leads(TextDoc, 8, ElementValue, Xml([ValuedA], [0], None), 12, ElementEnd, Xml([ValuedA], [], None))
  {
    TextDocFirstStep();
    RunContinue(TextDoc, 0, ElementNone, CreateContext(), 1, ElementNone, CreateContext());
    TextDocSecondStep();
    RunContinue(TextDoc, 1, ElementNone, CreateContext(), 4, ElementStart, Xml([EmptyA], [0], None));
    TextDocThirdStep();
    RunContinue(TextDoc, 4, ElementStart, Xml([EmptyA], [0], None), 8, ElementValue, Xml([ValuedA], [0], None));
    TextDocFourthStep();
    RunContinue(TextDoc, 8, ElementValue, Xml([ValuedA], [0], None), 12, ElementEnd, Xml([ValuedA], [], None));
  }

  /** The `x` before any tag is passed over; the text inside `a`, met in
      state START, is its value with the blanks around it trimmed. */
  lemma ParseTextDoc()
    ensures Run(TextDoc, 0, ElementNone, CreateContext())
            == Finished(NoErr, Xml([Node("a", "a", "hi", Simple, [], [])], [], None))
  {
    TextDocPasses();
    RunEnd(TextDoc, ElementEnd, Xml([ValuedA], [], None));
  }

  // ---------------------------------------------------------------------
  // The dump of a small context.
  // ---------------------------------------------------------------------

  lemma AttributesExample()
    ensures AttributesText([Attribute("k", "v"), Attribute("l", "w")]) == " k=\"v\"  l=\"w\""
  {
    var attrs := [Attribute("k", "v"), Attribute("l", "w")];
    assert attrs[1..] == [Attribute("l", "w")];
    assert AttributesText(attrs[1..]) == " l=\"w\"";
  }

  lemma BranchExample()
    ensures DumpBranch(Node("a", "a", "", Simple, [Attribute("k", "v"), Attribute("l", "w")], []), 0)
            == "<a k=\"v\"  l=\"w\"></a>\n"
  {
    var n := Node("a", "a", "", Simple, [Attribute("k", "v"), Attribute("l", "w")], []);
    assert OpenTag(n, 0) == "<a k=\"v\"  l=\"w\"" by {
      AttributesExample();
    }
  }

  /** Without a head, XmlDump writes the default one. */
  lemma DumpWithoutHead(xml: Xml)
    requires xml.head == None
    ensures Dump(xml) == "<?xml version=\"1.0\"?>\n" + DumpChildren(xml.roots, 0)
  {
    assert "<?" + DefaultHead + "?>\n" == "<?xml version=\"1.0\"?>\n";
  }

  /** Two attributes are written with two spaces between them, an empty
      leaf with an explicit end tag, and a context without head gets the
      default one. */
  lemma DumpExample()
    ensures Dump(Xml([Node("a", "a", "", Simple, [Attribute("k", "v"), Attribute("l", "w")], [])], [], None))
            == "<?xml version=\"1.0\"?>\n<a k=\"v\"  l=\"w\"></a>\n"
  {
    var n := Node("a", "a", "", Simple, [Attribute("k", "v"), Attribute("l", "w")], []);
    BranchExample();
    DumpWithoutHead(Xml([n], [], None));
    assert DumpChildren([n], 0) == DumpBranch(n, 0) + DumpChildren([], 0);
  }
}
