/**
  XmlParseBuffer reads back what XmlDump writes. A start tag makes the new
  node the cursor; the node's value and children are then filled in below
  the cursor, and the end tag hands the finished node back to its parent.
  `Focus(xml, m)` is the context in the middle of that: `m` appended below
  the cursor and designated by it.
*/
module XmlRoundTrip {
  import opened Wrappers
  import opened XmlTree
  import opened XmlScan
  import opened XmlDump
  import opened XmlParse
  import opened XmlScanFacts

  // ---------------------------------------------------------------------
  // The context while a node is being read.
  // ---------------------------------------------------------------------

  /** The path of the cursor node; None for a NULL cursor. */
  function CursorPath(xml: Xml): Option<string>
    requires ValidPos(xml.roots, xml.cursor)
  {
    if xml.cursor == [] then None else Some(NodeAt(xml.roots, xml.cursor).path)
  }

  /** `m` appended below the cursor and made the cursor. */
  function Focus(xml: Xml, m: Node): (r: Xml)
    requires ValidPos(xml.roots, xml.cursor)
    ensures ValidPos(r.roots, r.cursor) && r.cursor != [] && NodeAt(r.roots, r.cursor) == m
    ensures r.head == xml.head && CursorNode(r) == Some(m) && SlotCount(r) == |m.children|
  {
    AppendUnderCursor(xml, m).(cursor := xml.cursor + [SlotCount(xml)])
  }

  /** The node XmlCreateNode makes below the cursor has the cursor path as
      its parent path. */
  lemma ChildPathUnderCursor(xml: Xml, name: string)
    requires ValidPos(xml.roots, xml.cursor)
    ensures ChildPath(CursorNode(xml), name) == PathUnder(CursorPath(xml), name)
  {
  }

  /** Appending below the cursor leaves the cursor path alone. */
  lemma AppendKeepsCursorPath(xml: Xml, n: Node)
    requires ValidPos(xml.roots, xml.cursor)
    ensures CursorPath(AppendUnderCursor(xml, n)) == CursorPath(xml)
  {
    if xml.cursor != [] {
      var parent := NodeAt(xml.roots, xml.cursor);
      ReplaceAtFocus(xml.roots, xml.cursor, parent.(children := parent.children + [n]));
    }
  }

  /** Replacing the node being read, by one with the same name and path
      or not, is reading that node instead. */
  lemma FocusReplace(xml: Xml, m: Node, m': Node)
    requires ValidPos(xml.roots, xml.cursor)
    ensures var f := Focus(xml, m);
            f.(roots := ReplaceAt(f.roots, f.cursor, m')) == Focus(xml, m')
  {
    var f := Focus(xml, m);
    var k := SlotCount(xml);
    if xml.cursor == [] {
      assert f.roots == xml.roots + [m] && f.cursor == [k];
      assert (xml.roots + [m])[k := m'] == xml.roots + [m'];
    } else {
      var parent := NodeAt(xml.roots, xml.cursor);
      var q := parent.(children := parent.children + [m]);
      ReplaceBelow(xml.roots, xml.cursor, q, k, m');
      assert q.children[k := m'] == parent.children + [m'];
    }
  }

  /** A node appended to the node being read becomes its last child. */
  lemma FocusAppend(xml: Xml, m: Node, c: Node)
    requires ValidPos(xml.roots, xml.cursor)
    ensures AppendUnderCursor(Focus(xml, m), c) == Focus(xml, m.(children := m.children + [c]))
  {
    FocusReplace(xml, m, m.(children := m.children + [c]));
  }

  /** The value handler sets the value of the node being read. */
  lemma FocusValue(xml: Xml, m: Node, text: string)
    requires ValidPos(xml.roots, xml.cursor) && HasText(text)
    ensures ValueHandler(Focus(xml, m), text).1 == Focus(xml, m.(value := Trim(text)))
  {
    FocusReplace(xml, m, m.(value := Trim(text)));
  }

  /** The end handler hands the node being read to its parent: the context
      is the one with the node appended below the old cursor. */
  lemma FocusEnd(xml: Xml, m: Node, name: string)
    requires ValidPos(xml.roots, xml.cursor)
    ensures EndHandler(Focus(xml, m), name) == (NoErr, AppendUnderCursor(xml, m))
  {
    var f := Focus(xml, m);
    assert f.cursor[..|f.cursor| - 1] == xml.cursor;
  }

  /** The start handler begins reading a fresh node named by the tag. */
  lemma FocusStart(xml: Xml, name: string, attrs: seq<Attribute>)
    requires ValidPos(xml.roots, xml.cursor) && name != ""
    ensures StartHandler(xml, name, attrs)
            == (NoErr, Focus(xml, Node(name, ChildPath(CursorNode(xml), name), "", Simple, attrs, [])))
  {
  }

  /** The node being read keeps the context consistent when it carries the
      path XmlCreateNode built for it. */
  lemma FocusConsistent(xml: Xml, m: Node)
    requires Consistent(xml)
    requires m.path == ChildPath(CursorNode(xml), m.name) && LevelOk(Some(m.path), m.children)
    ensures Consistent(Focus(xml, m)) && CursorPath(Focus(xml, m)) == Some(m.path)
  {
    AppendKeepsPaths(xml, m);
  }

  /** Each node of `cs` appended below the cursor in turn. */
  function AppendAll(xml: Xml, cs: seq<Node>): (r: Xml)
    requires ValidPos(xml.roots, xml.cursor)
    ensures ValidPos(r.roots, r.cursor)
    decreases |cs|
  {
    if |cs| == 0 then xml else AppendAll(AppendUnderCursor(xml, cs[0]), cs[1..])
  }

  /** Appending children one by one to the node being read appends them
      all. */
  lemma {:induction false} AppendAllFocus(xml: Xml, m: Node, cs: seq<Node>)
    requires ValidPos(xml.roots, xml.cursor)
    ensures AppendAll(Focus(xml, m), cs) == Focus(xml, m.(children := m.children + cs))
    decreases |cs|
  {
    if |cs| == 0 {
      assert m.children + cs == m.children;
    } else {
      FocusAppend(xml, m, cs[0]);
      AppendAllFocus(xml, m.(children := m.children + [cs[0]]), cs[1..]);
      assert m.children + [cs[0]] + cs[1..] == m.children + cs;
    }
  }

  /** With a NULL cursor, appending nodes one by one adds them as roots. */
  lemma {:induction false} AppendAllRoots(xml: Xml, cs: seq<Node>)
    requires xml.cursor == []
    ensures AppendAll(xml, cs) == xml.(roots := xml.roots + cs)
    decreases |cs|
  {
    if |cs| == 0 {
      assert xml.roots + cs == xml.roots;
    } else {
      AppendAllRoots(AppendUnderCursor(xml, cs[0]), cs[1..]);
      assert xml.roots + [cs[0]] + cs[1..] == xml.roots + cs;
    }
  }

  // ---------------------------------------------------------------------
  // Wrappers that keep proofs small. When a recursive function appears in
  // a proof goal, the verifier unfolds its definition two levels deep. A
  // non-recursive wrapper around it is unfolded once, to a call that is not
  // unfolded again. The round-trip lemmas state their goals through the
  // wrappers and unfold the recursive functions only where they need to.
  // ---------------------------------------------------------------------

  /** XmlDumpBranch of `n` at `depth` (DumpBranch behind a wrapper). */
  function Branch(n: Node, depth: nat): string
  {
    DumpBranch(n, depth)
  }

  /** The branches of `cs` at `depth` (DumpChildren behind a wrapper). */
  function Children(cs: seq<Node>, depth: nat): string
  {
    DumpChildren(cs, depth)
  }

  /** The indentation of a line at `depth` (Tabs behind a wrapper). */
  function Indent(depth: nat): (t: string)
    ensures |t| == depth && forall i | 0 <= i < depth :: t[i] == '\t'
  {
    Tabs(depth)
  }

  // ---------------------------------------------------------------------
  // The main loop, one pass at a time.
  // ---------------------------------------------------------------------

  /** The parse from `p` in state `st` on `xml` ends the way the parse from
      `q` in state `st'` on `x` ends: the passes in between lead from the one
      to the other. */
  predicate Leads(buf: string, p: nat, st: Phase, xml: Xml, q: nat, st': Phase, x: Xml)
  {
    p <= |buf| && q <= |buf| && ValidPos(xml.roots, xml.cursor) && ValidPos(x.roots, x.cursor)
    && Outcome(buf, p, st, xml) == Outcome(buf, q, st', x)
  }

  /** How the parse from `p` in state `st` on `xml` ends (Run behind a
      wrapper, so that a goal about Leads never unfolds Run to Dispatch). */
  function Outcome(buf: string, p: nat, st: Phase, xml: Xml): ParseOutcome
    requires p <= |buf| && ValidPos(xml.roots, xml.cursor)
  {
    Run(buf, p, st, xml)
  }

  /** A pass that goes on hands the rest of the parse to the next pass. */
  lemma RunContinue(buf: string, p: nat, st: Phase, xml: Xml, next: nat, st': Phase, x: Xml)
    requires p <= |buf| && ValidPos(xml.roots, xml.cursor)
    requires Step(buf, p, st, xml) == Continue(next, st', x)
    ensures next <= |buf| && ValidPos(x.roots, x.cursor) && Leads(buf, p, st, xml, next, st', x)
  {
    RunUnfold(buf, p, st, xml);
  }

  /** Two indices from which the blanks lead to the same character start
      the same passes. */
  lemma RunSameSkip(buf: string, p: nat, p': nat, st: Phase, xml: Xml)
    requires p <= |buf| && p' <= |buf| && ValidPos(xml.roots, xml.cursor)
    requires SkipBlanks(buf, p) == SkipBlanks(buf, p')
    ensures Leads(buf, p, st, xml, p', st, xml)
  {
  }

  /** A blank changes nothing: the next pass skips it. */
  lemma RunBlank(buf: string, p: nat, st: Phase, xml: Xml)
    requires p < |buf| && buf[p] in Blanks && ValidPos(xml.roots, xml.cursor)
    ensures Leads(buf, p, st, xml, p + 1, st, xml)
  {
    RunSameSkip(buf, p, p + 1, st, xml);
  }

  /** A run of blanks changes nothing. */
  lemma RunBlanks(buf: string, p: nat, w: string, st: Phase, xml: Xml)
    requires Has(buf, p, w) && BlankText(w) && ValidPos(xml.roots, xml.cursor)
    ensures p + |w| <= |buf| && Leads(buf, p, st, xml, p + |w|, st, xml)
  {
    SkipFromInside(buf, p, w);
    RunSameSkip(buf, p, p + |w|, st, xml);
  }

  /** Passes that lead to a line break lead past it. */
  lemma RunLine(buf: string, p: nat, st: Phase, xml: Xml, e: nat, st': Phase, x: Xml)
    requires Leads(buf, p, st, xml, e, st', x) && e < |buf| && buf[e] == '\n'
    ensures Leads(buf, p, st, xml, e + 1, st', x)
  {
    RunBlank(buf, e, st', x);
  }

  /** At the NUL the parse is over, without error. */
  lemma RunEnd(buf: string, st: Phase, xml: Xml)
    requires ValidPos(xml.roots, xml.cursor)
    ensures Run(buf, |buf|, st, xml) == Finished(NoErr, xml)
  {
    RunUnfold(buf, |buf|, st, xml);
  }

  /** A comment or CDATA section appends a node and keeps the state. */
  lemma DispatchSpecial(buf: string, q: nat, st: Phase, xml: Xml, kind: NodeKind, v: string, next: nat)
    requires q < |buf| && buf[q] == '<' && ValidPos(xml.roots, xml.cursor)
    requires ScanMarkup(buf, q + 1) == Special(kind, v, next)
    ensures Dispatch(buf, q, st, xml) == Continue(next, st, ExtraNodeHandler(xml, v, kind).1)
  {
  }

  /** A start tag not closed at once begins a node and enters state START. */
  lemma DispatchOpen(buf: string, q: nat, st: Phase, xml: Xml, name: string, attrs: seq<Attribute>, at: nat)
    requires q < |buf| && buf[q] == '<' && ValidPos(xml.roots, xml.cursor) && name != "" && at < |buf|
    requires ScanMarkup(buf, q + 1) == Open(name, attrs, false, at)
    ensures Dispatch(buf, q, st, xml) == Continue(at + 1, ElementStart, StartHandler(xml, name, attrs).1)
  {
  }

  /** An end tag below a node moves the cursor up and enters state END. */
  lemma DispatchClose(buf: string, q: nat, st: Phase, xml: Xml, name: string, next: nat)
    requires q < |buf| && buf[q] == '<' && ValidPos(xml.roots, xml.cursor) && xml.cursor != []
    requires ScanMarkup(buf, q + 1) == Close(name, next)
    ensures Dispatch(buf, q, st, xml) == Continue(next, ElementEnd, EndHandler(xml, name).1)
  {
  }

  /** A `<?...?>` records the head and keeps the state. */
  lemma DispatchHead(buf: string, q: nat, st: Phase, xml: Xml, h: string, next: nat)
    requires q < |buf| && buf[q] == '<' && ValidPos(xml.roots, xml.cursor)
    requires ScanMarkup(buf, q + 1) == Head(h, next)
    ensures Dispatch(buf, q, st, xml) == Continue(next, st, xml.(head := Some(h)))
  {
  }

  /** Text in state START, up to the next `<`, is the cursor's value. */
  lemma DispatchText(buf: string, q: nat, xml: Xml, e: nat)
    requires q < e < |buf| && buf[q] != '<' && buf[q] !in Blanks && ValidPos(xml.roots, xml.cursor)
    requires ScanTo(buf, q, {'<'}) == e
    ensures HasText(buf[q..e])
    ensures Dispatch(buf, q, ElementStart, xml) == Continue(e, ElementValue, ValueHandler(xml, buf[q..e]).1)
  {
    assert buf[q..e][0] == buf[q];
  }

  // ---------------------------------------------------------------------
  // What reads back.
  // ---------------------------------------------------------------------

  /** A value that survives the dump and the value handler's trimming: empty,
      or free of `<` and starting and ending with a character that is not a
      blank. */
  predicate ValueOk(v: string)
  {
    v == "" || (v[0] !in Blanks && v[|v| - 1] !in Blanks && forall i | 0 <= i < |v| :: v[i] != '<')
  }

  /** A node whose dump reads back as the node itself: a simple node with a
      tag name, attributes and a value that read back, and children that do;
      a comment or CDATA node with the name the parser gives it, nothing
      below it and a text in which its terminator does not occur early. */
  predicate Dumpable(n: Node)
    decreases n
  {
    match n.kind
    case Simple =>
      && TagName(n.name) && AttrsOk(n.attributes) && ValueOk(n.value)
      && forall i | 0 <= i < |n.children| :: Dumpable(n.children[i])
    case Comment => FakeNode(n) && NoEarlyMatch(n.value, "-->")
    case CData => FakeNode(n) && NoEarlyMatch(n.value, "]]>")
  }

  /** A comment or CDATA node as XmlExtraNodeHandler makes it. */
  predicate FakeNode(n: Node)
  {
    n.kind != Simple && n.name == FakeName(n.kind) && n.attributes == [] && n.children == []
  }

  /** The markup of a comment or CDATA node between its `<` and its line
      break. */
  function SpecialText(n: Node): string
    requires n.kind != Simple
  {
    if n.kind == Comment then "!--" + n.value + "-->" else "![CDATA[" + n.value + "]]>"
  }

  /** The markup scanner reads a comment or CDATA node's markup back. */
  lemma ReadSpecial(buf: string, p: nat, n: Node)
    requires 1 <= p <= |buf| && buf[p - 1] == '<' && n.kind != Simple && Dumpable(n)
    requires Has(buf, p, SpecialText(n))
    ensures ScanMarkup(buf, p) == Special(n.kind, n.value, p + |SpecialText(n)|)
  {
    if n.kind == Comment {
      ReadComment(buf, p, n.value);
    } else {
      ReadCData(buf, p, n.value);
    }
  }

  /** The text at `p` ends with a line break. */
  lemma LineEnd(buf: string, p: nat, s: string)
    requires Has(buf, p, s + "\n")
    ensures p + |s| < |buf| && buf[p + |s|] == '\n' && Has(buf, p, s)
  {
    HasConcat(buf, p, s, "\n");
    CharAt(buf, p + |s|, "\n", 0);
  }

  /** A character of the buffer as a one-character text. */
  lemma HasChar(buf: string, i: nat, c: char)
    requires i < |buf| && buf[i] == c
    ensures Has(buf, i, [c])
  {
    assert [c][1..] == "";
  }

  /** The indentation of a branch is skipped up to its `<`. */
  lemma IndentSkipped(buf: string, p: nat, q: nat, d: nat)
    requires Has(buf, p, Indent(d)) && q == p + d && q < |buf| && buf[q] == '<'
    ensures SkipBlanks(buf, p) == q
  {
    assert BlankText(Indent(d));
    SkipOver(buf, p, Indent(d));
  }

  // ---------------------------------------------------------------------
  // Comments and CDATA sections.
  // ---------------------------------------------------------------------

  /** What the main loop meets at the dump of a comment or CDATA node. */
  lemma SpecialAt(buf: string, p: nat, q: nat, e: nat, n: Node, d: nat)
    requires n.kind != Simple && Dumpable(n)
    requires q == p + d && e == q + 1 + |SpecialText(n)|
    requires Has(buf, p, Indent(d)) && q < |buf| && buf[q] == '<' && Has(buf, q + 1, SpecialText(n))
    ensures SkipBlanks(buf, p) == q && ScanMarkup(buf, q + 1) == Special(n.kind, n.value, e)
  {
    IndentSkipped(buf, p, q, d);
    ReadSpecial(buf, q + 1, n);
  }

  /** The pass over an indented comment or CDATA markup appends the node. */
  lemma SpecialStep(buf: string, p: nat, q: nat, e: nat, n: Node, d: nat, st: Phase, xml: Xml)
    requires n.kind != Simple && Dumpable(n) && ValidPos(xml.roots, xml.cursor)
    requires n.path == PathUnder(CursorPath(xml), n.name)
    requires q == p + d && e == q + 1 + |SpecialText(n)|
    requires Has(buf, p, Indent(d)) && q < |buf| && buf[q] == '<' && Has(buf, q + 1, SpecialText(n))
    ensures Leads(buf, p, st, xml, e, st, AppendUnderCursor(xml, n))
  {
    SpecialAt(buf, p, q, e, n, d);
    DispatchSpecial(buf, q, st, xml, n.kind, n.value, e);
    ChildPathUnderCursor(xml, n.name);
    assert ExtraNodeHandler(xml, n.value, n.kind).1 == AppendUnderCursor(xml, n);
    RunContinue(buf, p, st, xml, e, st, AppendUnderCursor(xml, n));
  }

  /** A comment or CDATA node read back: it is appended below the cursor,
      which does not move, and the state does not change. */
  lemma SpecialRoundTrip(buf: string, p: nat, q: nat, e: nat, n: Node, d: nat, st: Phase, xml: Xml)
    requires n.kind != Simple && Dumpable(n) && ValidPos(xml.roots, xml.cursor)
    requires n.path == PathUnder(CursorPath(xml), n.name)
    requires q == p + d && e == q + 1 + |SpecialText(n)|
    requires Has(buf, p, Indent(d)) && q < |buf| && buf[q] == '<' && Has(buf, q + 1, SpecialText(n))
    requires e < |buf| && buf[e] == '\n'
    ensures Leads(buf, p, st, xml, e + 1, st, AppendUnderCursor(xml, n))
  {
    SpecialStep(buf, p, q, e, n, d, st, xml);
    RunLine(buf, p, st, xml, e, st, AppendUnderCursor(xml, n));
  }

  // ---------------------------------------------------------------------
  // Start tags, values and end tags.
  // ---------------------------------------------------------------------

  /** The node the start handler makes for the start tag of `n`, before its
      value and children are read. */
  function Started(xml: Xml, n: Node): Node
    requires ValidPos(xml.roots, xml.cursor)
  {
    Node(n.name, PathUnder(CursorPath(xml), n.name), "", Simple, n.attributes, [])
  }

  /** A start tag after its indentation, read by the markup scanner. */
  lemma OpenAt(buf: string, q: nat, a: nat, n: Node)
    requires q < |buf| && buf[q] == '<' && Has(buf, q + 1, TagText(n))
    requires a == q + 1 + |TagText(n)| && a < |buf| && buf[a] == '>'
    requires TagName(n.name) && AttrsOk(n.attributes)
    ensures ScanMarkup(buf, q + 1) == Open(n.name, n.attributes, false, a)
  {
    HasChar(buf, a, '>');
    HasConcat(buf, q + 1, TagText(n), ">");
    ReadOpen(buf, q + 1, a, n.name, n.attributes);
  }

  /** A start tag read back: the node, still without value and children,
      becomes the cursor and the state is START. */
  lemma OpenRoundTrip(buf: string, p: nat, q: nat, a: nat, n: Node, d: nat, st: Phase, xml: Xml)
    requires TagName(n.name) && AttrsOk(n.attributes) && ValidPos(xml.roots, xml.cursor)
    requires q == p + d && a == q + 1 + |TagText(n)|
    requires Has(buf, p, Indent(d)) && q < |buf| && buf[q] == '<' && Has(buf, q + 1, TagText(n))
    requires a < |buf| && buf[a] == '>'
    ensures Leads(buf, p, st, xml, a + 1, ElementStart, Focus(xml, Started(xml, n)))
  {
    IndentSkipped(buf, p, q, d);
    OpenAt(buf, q, a, n);
    OpenLeads(buf, p, q, a, n, st, xml);
  }

  /** The pass over a start tag the markup scanner has read, after blanks. */
  lemma OpenLeads(buf: string, p: nat, q: nat, a: nat, n: Node, st: Phase, xml: Xml)
    requires p <= |buf| && ValidPos(xml.roots, xml.cursor) && n.name != ""
    requires SkipBlanks(buf, p) == q && q < |buf| && buf[q] == '<' && a < |buf|
    requires ScanMarkup(buf, q + 1) == Open(n.name, n.attributes, false, a)
    ensures Leads(buf, p, st, xml, a + 1, ElementStart, Focus(xml, Started(xml, n)))
  {
    assert Step(buf, p, st, xml) == Continue(a + 1, ElementStart, Focus(xml, Started(xml, n))) by {
      DispatchOpen(buf, q, st, xml, n.name, n.attributes, a);
      ChildPathUnderCursor(xml, n.name);
      FocusStart(xml, n.name, n.attributes);
    }
    RunContinue(buf, p, st, xml, a + 1, ElementStart, Focus(xml, Started(xml, n)));
  }

  /** What the main loop meets at a value between blanks, followed by a
      `<`. */
  lemma TextFacts(buf: string, p: nat, q: nat, e: nat, a: string, v: string, b: string)
    requires q == p + |a| && e == q + |v| + |b|
    requires Has(buf, p, a) && Has(buf, q, v) && Has(buf, q + |v|, b) && e < |buf| && buf[e] == '<'
    requires BlankText(a) && BlankText(b) && v != "" && ValueOk(v)
    ensures SkipBlanks(buf, p) == q && q < e && buf[q] != '<' && buf[q] !in Blanks
    ensures ScanTo(buf, q, {'<'}) == e && buf[q..e] == v + b
  {
    CharAt(buf, q, v, 0);
    SkipOver(buf, p, a);
    HasConcat(buf, q, v, b);
    forall i | 0 <= i < |v + b| ensures (v + b)[i] !in {'<'} {
      if i < |v| { assert (v + b)[i] == v[i]; } else { assert (v + b)[i] == b[i - |v|]; }
    }
    ScanOver(buf, q, v + b, {'<'});
    HasChars(buf, q, v + b);
    assert buf[q..e] == v + b;
  }

  /** The text of a value pass, trimmed, is the value. */
  lemma TrimmedText(buf: string, q: nat, e: nat, v: string, b: string)
    requires q <= e <= |buf| && buf[q..e] == v + b && BlankText(b) && v != "" && ValueOk(v)
    ensures HasText(buf[q..e]) && Trim(buf[q..e]) == v
  {
    TrimBlankPadded("", v, b);
    assert "" + v + b == buf[q..e];
  }

  /** The value pass of state START trims the text back to the value. */
  lemma TextStep(buf: string, p: nat, q: nat, e: nat, v: string, xml: Xml, m: Node)
    requires ValidPos(xml.roots, xml.cursor)
    requires p <= q < e < |buf| && SkipBlanks(buf, p) == q && buf[q] != '<' && buf[q] !in Blanks
    requires ScanTo(buf, q, {'<'}) == e && HasText(buf[q..e]) && Trim(buf[q..e]) == v
    ensures Leads(buf, p, ElementStart, Focus(xml, m), e, ElementValue, Focus(xml, m.(value := v)))
  {
    DispatchText(buf, q, Focus(xml, m), e);
    FocusValue(xml, m, buf[q..e]);
    RunContinue(buf, p, ElementStart, Focus(xml, m), e, ElementValue, Focus(xml, m.(value := v)));
  }

  /** A value read back in state START: the blanks around it are dropped and
      the node being read receives it; the state becomes VALUE. */
  lemma TextRoundTrip(buf: string, p: nat, q: nat, e: nat, a: string, v: string, b: string, xml: Xml, m: Node)
    requires q == p + |a| && e == q + |v| + |b|
    requires Has(buf, p, a) && Has(buf, q, v) && Has(buf, q + |v|, b) && e < |buf| && buf[e] == '<'
    requires BlankText(a) && BlankText(b) && v != "" && ValueOk(v) && ValidPos(xml.roots, xml.cursor)
    ensures Leads(buf, p, ElementStart, Focus(xml, m), e, ElementValue, Focus(xml, m.(value := v)))
  {
    TextFacts(buf, p, q, e, a, v, b);
    TrimmedText(buf, q, e, v, b);
    TextStep(buf, p, q, e, v, xml, m);
  }

  /** An end tag, read by the markup scanner, and the line break after it. */
  lemma CloseAt(buf: string, q: nat, e: nat, m: Node)
    requires Has(buf, q, CloseTag(m)) && TagName(m.name) && e == q + |m.name| + 3
    ensures e < |buf| && buf[q] == '<' && buf[e] == '\n' && |CloseTag(m)| == |m.name| + 4
    ensures ScanMarkup(buf, q + 1) == Close(m.name, e)
  {
    var t := CloseTag(m);
    assert t == "<" + (("/" + m.name + ">") + "\n");
    HasConcat(buf, q, "<", ("/" + m.name + ">") + "\n");
    CharAt(buf, q, t, 0);
    LineEnd(buf, q + 1, "/" + m.name + ">");
    ReadClose(buf, q + 1, m.name);
  }

  /** The pass over an indented end tag hands the node being read to its
      parent, whatever the name in the tag. */
  lemma CloseStep(buf: string, p: nat, q: nat, e: nat, m: Node, d: nat, st: Phase, xml: Xml)
    requires q == p + d && e == q + |m.name| + 3
    requires Has(buf, p, Indent(d)) && Has(buf, q, CloseTag(m)) && TagName(m.name)
    requires ValidPos(xml.roots, xml.cursor)
    ensures e < |buf| && buf[e] == '\n' && e + 1 == q + |CloseTag(m)|
    ensures Leads(buf, p, st, Focus(xml, m), e, ElementEnd, AppendUnderCursor(xml, m))
  {
    CloseAt(buf, q, e, m);
    IndentSkipped(buf, p, q, d);
    DispatchClose(buf, q, st, Focus(xml, m), m.name, e);
    FocusEnd(xml, m, m.name);
    RunContinue(buf, p, st, Focus(xml, m), e, ElementEnd, AppendUnderCursor(xml, m));
  }

  /** An end tag read back: whatever its name and the state, the node being
      read is complete below the old cursor and the state is END. */
  lemma CloseRoundTrip(buf: string, p: nat, q: nat, e: nat, m: Node, d: nat, st: Phase, xml: Xml)
    requires q == p + d && e == q + |m.name| + 3
    requires Has(buf, p, Indent(d)) && Has(buf, q, CloseTag(m)) && TagName(m.name)
    requires ValidPos(xml.roots, xml.cursor)
    ensures e < |buf| && e + 1 == q + |CloseTag(m)|
    ensures Leads(buf, p, st, Focus(xml, m), e + 1, ElementEnd, AppendUnderCursor(xml, m))
  {
    CloseStep(buf, p, q, e, m, d, st, xml);
    RunLine(buf, p, st, Focus(xml, m), e, ElementEnd, AppendUnderCursor(xml, m));
  }

  // ---------------------------------------------------------------------
  // The pieces of a dumped branch.
  // ---------------------------------------------------------------------

  /** A text that is one text followed by another. */
  lemma HasSplit(buf: string, p: nat, x: string, y: string, k: nat)
    requires Has(buf, p, x + y) && k == p + |x|
    ensures Has(buf, p, x) && Has(buf, k, y)
  {
    HasConcat(buf, p, x, y);
  }

  /** One text followed by another is their concatenation. */
  lemma HasJoin(buf: string, p: nat, x: string, y: string, k: nat)
    requires Has(buf, p, x) && Has(buf, k, y) && k == p + |x|
    ensures Has(buf, p, x + y)
  {
    HasConcat(buf, p, x, y);
  }

  /** The start tag of a simple node, after its indentation. */
  lemma OpenTagPieces(buf: string, p: nat, q: nat, n: Node, d: nat)
    requires Has(buf, p, OpenTag(n, d)) && q == p + d
    ensures Has(buf, p, Indent(d)) && q < |buf| && buf[q] == '<' && Has(buf, q + 1, TagText(n))
  {
    HasSplit(buf, p, Indent(d) + "<", TagText(n), q + 1);
    HasSplit(buf, p, Indent(d), "<", q);
    CharAt(buf, q, "<", 0);
  }

  /** Every branch is written from its indentation and a `<` on. */
  lemma BranchOpens(n: Node, d: nat)
    ensures |Branch(n, d)| > d && Branch(n, d)[d] == '<'
    ensures forall i | 0 <= i < d :: Branch(n, d)[i] == '\t'
  {
    if n.kind == Simple {
      assert Branch(n, d)[..|OpenTag(n, d)|] == OpenTag(n, d);
    }
  }

  /** The start of every branch: its indentation and then a `<`. */
  lemma BranchStart(buf: string, p: nat, k: nat, n: Node, d: nat)
    requires Has(buf, p, Branch(n, d)) && k == p + d
    ensures Has(buf, p, Indent(d)) && k < |buf| && buf[k] == '<'
  {
    var b := Branch(n, d);
    BranchOpens(n, d);
    HasChars(buf, p, b);
    forall i | 0 <= i < d ensures buf[p + i] == Indent(d)[i] {
      assert buf[p + i] == b[i];
    }
    HasChars(buf, p, Indent(d));
    assert buf[k] == b[d];
  }

  /** The dump of a non-empty list starts with the dump of its first node. */
  lemma ChildrenSplit(buf: string, p: nat, k: nat, cs: seq<Node>, d: nat)
    requires |cs| > 0 && Has(buf, p, Children(cs, d)) && k == p + |Branch(cs[0], d)|
    ensures Has(buf, p, Branch(cs[0], d)) && Has(buf, k, Children(cs[1..], d))
  {
    HasSplit(buf, p, Branch(cs[0], d), Children(cs[1..], d), k);
  }

  /** The dump of a comment or CDATA node: its indentation, the `<`, its
      markup and the line break at `e`. */
  lemma SpecialPieces(buf: string, p: nat, q: nat, e: nat, n: Node, d: nat)
    requires n.kind != Simple && Has(buf, p, Branch(n, d))
    requires q == p + d && e == q + 1 + |SpecialText(n)|
    ensures Has(buf, p, Indent(d)) && q < |buf| && buf[q] == '<' && Has(buf, q + 1, SpecialText(n))
    ensures e < |buf| && buf[e] == '\n' && e + 1 == p + |Branch(n, d)|
  {
    assert Branch(n, d) == Indent(d) + "<" + SpecialText(n) + "\n";
    HasSplit(buf, p, Indent(d) + "<" + SpecialText(n), "\n", e);
    HasSplit(buf, p, Indent(d) + "<", SpecialText(n), q + 1);
    HasSplit(buf, p, Indent(d), "<", q);
    CharAt(buf, q, "<", 0);
    CharAt(buf, e, "\n", 0);
  }

  /** The dump of a simple node without children: the start tag, its `>`
      at `a`, the value and the end tag at `c`. */
  lemma LeafPieces(buf: string, p: nat, a: nat, c: nat, e: nat, end: nat, n: Node, d: nat)
    requires n.kind == Simple && n.children == [] && Has(buf, p, Branch(n, d))
    requires a == p + d + 1 + |TagText(n)| && c == a + 1 + |n.value| && e == c + |n.name| + 3
    requires end == p + |Branch(n, d)|
    ensures Has(buf, p, OpenTag(n, d)) && a < |buf| && buf[a] == '>'
    ensures Has(buf, a + 1, n.value) && Has(buf, c, CloseTag(n)) && c < |buf| && buf[c] == '<'
    ensures end == e + 1
  {
    var o := OpenTag(n, d);
    HasSplit(buf, p, o + ">" + n.value, CloseTag(n), c);
    HasSplit(buf, p, o + ">", n.value, a + 1);
    HasSplit(buf, p, o, ">", a);
    CharAt(buf, a, ">", 0);
    CharAt(buf, c, CloseTag(n), 0);
  }

  /** The end of the dump of a simple node with children: the children
      from `s`, the indentation of the end tag from `t` and the end tag
      from `u`. */
  lemma ParentTail(buf: string, p: nat, r: nat, s: nat, t: nat, u: nat, e: nat, end: nat, n: Node, d: nat)
    requires n.kind == Simple && |n.children| > 0 && Has(buf, p, Branch(n, d))
    requires r == p + |OpenTag(n, d)| + 2 && s == r + |ValueLine(n, d)|
    requires t == s + |Children(n.children, d + 1)| && u == t + d
    requires e == u + |n.name| + 3 && end == p + |Branch(n, d)|
    ensures Has(buf, p, OpenTag(n, d) + ">\n" + ValueLine(n, d))
    ensures Has(buf, s, Children(n.children, d + 1)) && Has(buf, t, Indent(d)) && Has(buf, u, CloseTag(n))
    ensures end == e + 1
  {
    var h := OpenTag(n, d) + ">\n" + ValueLine(n, d);
    var dc := Children(n.children, d + 1);
    HasSplit(buf, p, h + dc + Indent(d), CloseTag(n), u);
    HasSplit(buf, p, h + dc, Indent(d), t);
    HasSplit(buf, p, h, dc, s);
  }

  /** The start of the dump of a simple node with children: the start tag,
      its `>` at `a`, a line break and the value line from `r`. */
  lemma ParentHead(buf: string, p: nat, a: nat, r: nat, n: Node, d: nat)
    requires Has(buf, p, OpenTag(n, d) + ">\n" + ValueLine(n, d))
    requires a == p + |OpenTag(n, d)| && r == a + 2
    ensures Has(buf, p, OpenTag(n, d)) && a + 1 < |buf| && buf[a] == '>' && buf[a + 1] == '\n'
    ensures Has(buf, r, ValueLine(n, d))
  {
    HasSplit(buf, p, OpenTag(n, d) + ">\n", ValueLine(n, d), r);
    HasSplit(buf, p, OpenTag(n, d), ">\n", a);
    CharAt(buf, a, ">\n", 0);
    CharAt(buf, a, ">\n", 1);
  }

  /** A non-empty value line: the indentation, the value and a line break at
      `l`, after which the line ends. */
  lemma ValueLinePieces(buf: string, r: nat, l: nat, n: Node, d: nat)
    requires n.value != "" && Has(buf, r, ValueLine(n, d)) && l == r + d + |n.value|
    ensures Has(buf, r, Indent(d)) && Has(buf, r + d, n.value) && l < |buf| && buf[l] == '\n'
    ensures r + |ValueLine(n, d)| == l + 1
  {
    HasSplit(buf, r, Indent(d) + n.value, "\n", l);
    HasSplit(buf, r, Indent(d), n.value, r + d);
    CharAt(buf, l, "\n", 0);
  }

  // ---------------------------------------------------------------------
  // Whole branches.
  // ---------------------------------------------------------------------

  /** The state after a branch is read: END after a simple node, unchanged
      after a comment or CDATA node. */
  function After(n: Node, st: Phase): Phase
  {
    if n.kind == Simple then ElementEnd else st
  }

  /** The state after a list of branches is read. */
  function AfterAll(cs: seq<Node>, st: Phase): Phase
    decreases |cs|
  {
    if |cs| == 0 then st else AfterAll(cs[1..], After(cs[0], st))
  }

  /** A value between blanks after a start tag, read in state START. */
  lemma ValueRun(buf: string, a: nat, r: nat, l: nat, s: nat, k: nat, n: Node, d: nat, xml: Xml, m: Node)
    requires n.value != "" && ValueOk(n.value) && ValidPos(xml.roots, xml.cursor)
    requires a + 1 < |buf| && buf[a + 1] == '\n' && r == a + 2 && l == r + d + |n.value|
    requires Has(buf, r, Indent(d)) && Has(buf, r + d, n.value) && l < |buf| && buf[l] == '\n'
    requires s == l + 1 && k == s + d + 1 && Has(buf, s, Indent(d + 1)) && k < |buf| && buf[k] == '<'
    ensures Leads(buf, a + 1, ElementStart, Focus(xml, m), k, ElementValue, Focus(xml, m.(value := n.value)))
  {
    HasChar(buf, a + 1, '\n');
    HasJoin(buf, a + 1, "\n", Indent(d), r);
    HasChar(buf, l, '\n');
    HasJoin(buf, l, "\n", Indent(d + 1), s);
    assert BlankText("\n" + Indent(d)) && BlankText("\n" + Indent(d + 1));
    TextRoundTrip(buf, a + 1, r + d, k, "\n" + Indent(d), n.value, "\n" + Indent(d + 1), xml, m);
  }

  /** A value line after a start tag, up to the indentation of the first
      child. */
  lemma FullValueLineRun(buf: string, a: nat, r: nat, l: nat, s: nat, n: Node, d: nat, xml: Xml, m: Node)
    requires n.value != "" && ValueOk(n.value) && ValidPos(xml.roots, xml.cursor)
    requires a + 1 < |buf| && buf[a + 1] == '\n' && r == a + 2 && l == r + d + |n.value|
    requires Has(buf, r, ValueLine(n, d)) && s == r + |ValueLine(n, d)|
    requires Has(buf, s, Indent(d + 1)) && s + d + 1 < |buf| && buf[s + d + 1] == '<'
    ensures Leads(buf, a + 1, ElementStart, Focus(xml, m), s, ElementValue, Focus(xml, m.(value := n.value)))
  {
    ValueLinePieces(buf, r, l, n, d);
    ValueRun(buf, a, r, l, s, s + d + 1, n, d, xml, m);
    IndentSkipped(buf, s, s + d + 1, d + 1);
    RunSameSkip(buf, s + d + 1, s, ElementValue, Focus(xml, m.(value := n.value)));
  }

  /** The state after the value part of a simple node: VALUE if it has a
      value, START otherwise. */
  function ValueState(n: Node): Phase
  {
    if n.value != "" then ElementValue else ElementStart
  }

  /** After a start tag, the value line and the blanks before the first
      child: the node being read receives its value. */
  lemma ValueLineRun(buf: string, a: nat, r: nat, s: nat, n: Node, d: nat, xml: Xml, m: Node)
    requires ValueOk(n.value) && ValidPos(xml.roots, xml.cursor) && m.value == ""
    requires a + 1 < |buf| && buf[a + 1] == '\n' && r == a + 2 && Has(buf, r, ValueLine(n, d))
    requires s == r + |ValueLine(n, d)| && Has(buf, s, Indent(d + 1)) && s + d + 1 < |buf| && buf[s + d + 1] == '<'
    ensures Leads(buf, a + 1, ElementStart, Focus(xml, m), s, ValueState(n), Focus(xml, m.(value := n.value)))
  {
    if n.value != "" {
      FullValueLineRun(buf, a, r, r + d + |n.value|, s, n, d, xml, m);
    } else {
      assert m.(value := n.value) == m && s == r;
      RunBlank(buf, a + 1, ElementStart, Focus(xml, m));
    }
  }

  /** The value of a simple node without children, directly between its
      tags. */
  lemma LeafValueRun(buf: string, a: nat, c: nat, n: Node, xml: Xml, m: Node)
    requires ValueOk(n.value) && ValidPos(xml.roots, xml.cursor) && m.value == ""
    requires c == a + 1 + |n.value| && Has(buf, a + 1, n.value) && c < |buf| && buf[c] == '<'
    ensures Leads(buf, a + 1, ElementStart, Focus(xml, m), c, ValueState(n), Focus(xml, m.(value := n.value)))
  {
    if n.value != "" {
      TextRoundTrip(buf, a + 1, a + 1, c, "", n.value, "", xml, m);
    } else {
      assert m.(value := n.value) == m && c == a + 1;
    }
  }

  /** A simple node without children read back. */
  lemma LeafRoundTrip(buf: string, p: nat, a: nat, c: nat, e: nat, n: Node, d: nat, st: Phase, xml: Xml)
    requires n.kind == Simple && n.children == [] && Dumpable(n) && ValidPos(xml.roots, xml.cursor)
    requires n.path == PathUnder(CursorPath(xml), n.name)
    requires a == p + d + 1 + |TagText(n)| && c == a + 1 + |n.value| && e == c + |n.name| + 3
    requires Has(buf, p, OpenTag(n, d)) && a < |buf| && buf[a] == '>'
    requires Has(buf, a + 1, n.value) && Has(buf, c, CloseTag(n)) && c < |buf| && buf[c] == '<'
    ensures Leads(buf, p, st, xml, e + 1, ElementEnd, AppendUnderCursor(xml, n))
  {
    var m := Started(xml, n);
    OpenTagPieces(buf, p, p + d, n, d);
    OpenRoundTrip(buf, p, p + d, a, n, d, st, xml);
    LeafValueRun(buf, a, c, n, xml, m);
    assert m.(value := n.value) == n && Indent(0) == "";
    CloseRoundTrip(buf, c, c, e, n, 0, ValueState(n), xml);
  }

  /** The start tag and the value line of a simple node with children read
      back: the node, with its value, is being read. */
  lemma ParentOpen(buf: string, p: nat, a: nat, r: nat, s: nat, n: Node, d: nat, st: Phase, xml: Xml)
    requires n.kind == Simple && Dumpable(n) && ValidPos(xml.roots, xml.cursor)
    requires a == p + |OpenTag(n, d)| && r == a + 2 && s == r + |ValueLine(n, d)|
    requires Has(buf, p, OpenTag(n, d)) && a + 1 < |buf| && buf[a] == '>' && buf[a + 1] == '\n'
    requires Has(buf, r, ValueLine(n, d)) && Has(buf, s, Indent(d + 1)) && s + d + 1 < |buf| && buf[s + d + 1] == '<'
    ensures Leads(buf, p, st, xml, s, ValueState(n), Focus(xml, Opened(xml, n)))
  {
    OpenTagPieces(buf, p, p + d, n, d);
    OpenRoundTrip(buf, p, p + d, a, n, d, st, xml);
    ValueLineRun(buf, a, r, s, n, d, xml, Started(xml, n));
  }

  /** The pieces of the dump of a simple node with children: its start
      tag and the `>` with the line break at `a`, the value line at `r`, the
      children at `s` (the first one indented and opened), and the indented
      end tag at `t` and `u`. */
  lemma ParentPieces(buf: string, p: nat, a: nat, r: nat, s: nat, t: nat, u: nat, e: nat, end: nat, n: Node, d: nat)
    requires n.kind == Simple && |n.children| > 0 && Has(buf, p, Branch(n, d)) && end == p + |Branch(n, d)|
    requires a == p + |OpenTag(n, d)| && r == a + 2 && s == r + |ValueLine(n, d)|
    requires t == s + |Children(n.children, d + 1)| && u == t + d && e == u + |n.name| + 3
    ensures Has(buf, p, OpenTag(n, d)) && a + 1 < |buf| && buf[a] == '>' && buf[a + 1] == '\n'
    ensures Has(buf, r, ValueLine(n, d)) && Has(buf, s, Indent(d + 1)) && s + d + 1 < |buf| && buf[s + d + 1] == '<'
    ensures Has(buf, s, Children(n.children, d + 1)) && Has(buf, t, Indent(d)) && Has(buf, u, CloseTag(n))
    ensures end == e + 1
  {
    ParentTail(buf, p, r, s, t, u, e, end, n, d);
    ParentHead(buf, p, a, r, n, d);
    ChildrenSplit(buf, s, s + |Branch(n.children[0], d + 1)|, n.children, d + 1);
    BranchStart(buf, s, s + d + 1, n.children[0], d + 1);
  }

  /** The start of a simple node with children read back, up to its first
      child; the rest of its dump is laid out as its children and its
      indented end tag. */
  lemma ParentHeadRun(buf: string, p: nat, a: nat, s: nat, t: nat, u: nat, e: nat, end: nat, n: Node, d: nat, st: Phase, xml: Xml)
    requires n.kind == Simple && |n.children| > 0 && Dumpable(n) && ValidPos(xml.roots, xml.cursor)
    requires Has(buf, p, Branch(n, d)) && end == p + |Branch(n, d)|
    requires a == p + |OpenTag(n, d)| && s == a + 2 + |ValueLine(n, d)|
    requires t == s + |Children(n.children, d + 1)| && u == t + d && e == u + |n.name| + 3
    ensures Has(buf, s, Children(n.children, d + 1)) && Has(buf, t, Indent(d)) && Has(buf, u, CloseTag(n))
    ensures end == e + 1
    ensures Leads(buf, p, st, xml, s, ValueState(n), Focus(xml, Opened(xml, n)))
  {
    ParentPieces(buf, p, a, a + 2, s, t, u, e, end, n, d);
    ParentOpen(buf, p, a, a + 2, s, n, d, st, xml);
  }

  /** The node being read after the start tag and the value of `n`. */
  function Opened(xml: Xml, n: Node): Node
    requires ValidPos(xml.roots, xml.cursor)
  {
    Started(xml, n).(value := n.value)
  }

  /** Once all its children are appended, the node being read is `n`. */
  lemma ChildrenFocus(xml: Xml, n: Node)
    requires ValidPos(xml.roots, xml.cursor) && n.kind == Simple && n.path == PathUnder(CursorPath(xml), n.name)
    ensures AppendAll(Focus(xml, Opened(xml, n)), n.children) == Focus(xml, n)
  {
    var m := Opened(xml, n);
    AppendAllFocus(xml, m, n.children);
    assert m.(children := m.children + n.children) == n;
  }

  /** The children and the end tag of a simple node read back. */
  lemma ParentBody(buf: string, s: nat, t: nat, u: nat, e: nat, n: Node, d: nat, xml: Xml)
    requires n.kind == Simple && Dumpable(n) && ValidPos(xml.roots, xml.cursor)
    requires n.path == PathUnder(CursorPath(xml), n.name) && LevelOk(Some(n.path), n.children)
    requires Has(buf, s, Children(n.children, d + 1)) && t == s + |Children(n.children, d + 1)|
    requires Has(buf, t, Indent(d)) && Has(buf, u, CloseTag(n)) && u == t + d && e == u + |n.name| + 3
    ensures Leads(buf, s, ValueState(n), Focus(xml, Opened(xml, n)), e + 1, ElementEnd, AppendUnderCursor(xml, n))
    decreases n, 1
  {
    ChildrenRoundTrip(buf, s, t, n.children, d + 1, ValueState(n), Focus(xml, Opened(xml, n)));
    ChildrenFocus(xml, n);
    CloseRoundTrip(buf, t, u, e, n, d, AfterAll(n.children, ValueState(n)), xml);
  }

  /** A simple node with children read back. */
  lemma ParentRoundTrip(buf: string, p: nat, end: nat, n: Node, d: nat, st: Phase, xml: Xml)
    requires n.kind == Simple && |n.children| > 0 && Dumpable(n) && ValidPos(xml.roots, xml.cursor)
    requires n.path == PathUnder(CursorPath(xml), n.name) && LevelOk(Some(n.path), n.children)
    requires Has(buf, p, Branch(n, d)) && end == p + |Branch(n, d)|
    ensures Leads(buf, p, st, xml, end, ElementEnd, AppendUnderCursor(xml, n))
    decreases n, 2
  {
    var a := p + |OpenTag(n, d)|;
    var s := a + 2 + |ValueLine(n, d)|;
    var t := s + |Children(n.children, d + 1)|;
    ParentHeadRun(buf, p, a, s, t, t + d, t + d + |n.name| + 3, end, n, d, st, xml);
    ParentBody(buf, s, t, t + d, t + d + |n.name| + 3, n, d, xml);
  }

  /** A branch read back in any state: the node is appended below the
      cursor, which ends where it was. */
  lemma NodeRoundTrip(buf: string, p: nat, end: nat, n: Node, d: nat, st: Phase, xml: Xml)
    requires Dumpable(n) && ValidPos(xml.roots, xml.cursor)
    requires n.path == PathUnder(CursorPath(xml), n.name) && LevelOk(Some(n.path), n.children)
    requires Has(buf, p, Branch(n, d)) && end == p + |Branch(n, d)|
    ensures Leads(buf, p, st, xml, end, After(n, st), AppendUnderCursor(xml, n))
    decreases n, 3
  {
    if n.kind != Simple {
      var e := p + d + 1 + |SpecialText(n)|;
      SpecialPieces(buf, p, p + d, e, n, d);
      SpecialRoundTrip(buf, p, p + d, e, n, d, st, xml);
    } else if |n.children| == 0 {
      var a := p + d + 1 + |TagText(n)|;
      var c := a + 1 + |n.value|;
      LeafPieces(buf, p, a, c, c + |n.name| + 3, end, n, d);
      LeafRoundTrip(buf, p, a, c, c + |n.name| + 3, n, d, st, xml);
    } else {
      ParentRoundTrip(buf, p, end, n, d, st, xml);
    }
  }

  /** A list of branches read back: each node is appended below the cursor
      in turn. */
  lemma ChildrenRoundTrip(buf: string, p: nat, end: nat, cs: seq<Node>, d: nat, st: Phase, xml: Xml)
    requires ValidPos(xml.roots, xml.cursor) && LevelOk(CursorPath(xml), cs)
    requires forall i | 0 <= i < |cs| :: Dumpable(cs[i])
    requires Has(buf, p, Children(cs, d)) && end == p + |Children(cs, d)|
    ensures Leads(buf, p, st, xml, end, AfterAll(cs, st), AppendAll(xml, cs))
    decreases cs, 0
  {
    if |cs| > 0 {
      var k := p + |Branch(cs[0], d)|;
      ChildrenSplit(buf, p, k, cs, d);
      NodeRoundTrip(buf, p, k, cs[0], d, st, xml);
      AppendKeepsCursorPath(xml, cs[0]);
      ChildrenRoundTrip(buf, k, end, cs[1..], d, After(cs[0], st), AppendUnderCursor(xml, cs[0]));
    }
  }

  // ---------------------------------------------------------------------
  // A whole dump.
  // ---------------------------------------------------------------------

  /** The dump of a context: its head line and then its roots. */
  lemma DumpPieces(xml: Xml, h: string)
    requires h == xml.head.GetOr(DefaultHead)
    ensures var buf := Dump(xml);
            && |buf| == |h| + 5 + |Children(xml.roots, 0)| && buf[0] == '<' && buf[|h| + 4] == '\n'
            && Has(buf, 1, "?" + h + "?>") && Has(buf, |h| + 5, Children(xml.roots, 0))
  {
    var buf := Dump(xml);
    var x := "?" + h + "?>";
    var rest := Children(xml.roots, 0);
    assert buf == "<" + x + "\n" + rest;
    HasChars(buf, 0, buf);
    HasSplit(buf, 0, "<" + x + "\n", rest, |h| + 5);
    HasSplit(buf, 0, "<" + x, "\n", |h| + 4);
    HasSplit(buf, 0, "<", x, 1);
    CharAt(buf, 0, "<", 0);
    CharAt(buf, |h| + 4, "\n", 0);
  }

  /** The head line read back: the head is recorded and the state is
      unchanged. */
  lemma HeadRun(buf: string, h: string, xml: Xml)
    requires 0 < |buf| && buf[0] == '<' && Has(buf, 1, "?" + h + "?>") && NoEarlyMatch(h, "?>")
    requires |h| + 4 < |buf| && buf[|h| + 4] == '\n' && ValidPos(xml.roots, xml.cursor)
    ensures Leads(buf, 0, ElementNone, xml, |h| + 5, ElementNone, xml.(head := Some(h)))
  {
    ReadHead(buf, 1, h);
    DispatchHead(buf, 0, ElementNone, xml, h, |h| + 4);
    RunContinue(buf, 0, ElementNone, xml, |h| + 4, ElementNone, xml.(head := Some(h)));
    RunLine(buf, 0, ElementNone, xml, |h| + 4, ElementNone, xml.(head := Some(h)));
  }

  /** XmlParseBuffer on a fresh context reads back what XmlDump wrote: the
      head (the default one when the context had none) and every root, with
      a NULL cursor, and without error. */
  lemma ParseOfDump(xml: Xml)
    requires PathsOk(xml.roots) && forall i | 0 <= i < |xml.roots| :: Dumpable(xml.roots[i])
    requires NoEarlyMatch(xml.head.GetOr(DefaultHead), "?>")
    ensures Run(Dump(xml), 0, ElementNone, CreateContext())
            == Finished(NoErr, Xml(xml.roots, [], Some(xml.head.GetOr(DefaultHead))))
  {
    var buf := Dump(xml);
    var h := xml.head.GetOr(DefaultHead);
    var x0 := CreateContext().(head := Some(h));
    DumpPieces(xml, h);
    HeadRun(buf, h, CreateContext());
    ChildrenRoundTrip(buf, |h| + 5, |buf|, xml.roots, 0, ElementNone, x0);
    AppendAllRoots(x0, xml.roots);
    assert x0.roots + xml.roots == xml.roots;
    RunEnd(buf, AfterAll(xml.roots, ElementNone), AppendAll(x0, xml.roots));
  }
}
