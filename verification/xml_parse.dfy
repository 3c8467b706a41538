/**
  XmlParseBuffer (txml.c) and its four handlers. The handlers are transitions
  on the context (forest, cursor, head); the main loop is a scan over the
  buffer that dispatches on what follows each `<`, using the five element
  states of txml.c.

  The parse is total. The C code's undefined behaviour (reading through a
  NULL strstr result, or one past the terminating NUL) is the outcome
  `Undefined`, reported with the index at which it happens.
*/
module XmlParse {
  import opened Wrappers
  import opened XmlTree
  import opened XmlScan

  /** XML_ELEMENT_NONE .. XML_ELEMENT_UNIQUE (codes 0 to 4, in this order).
      The parser only compares states, so their codes play no part. */
  datatype Phase = ElementNone | ElementStart | ElementValue | ElementEnd | ElementUnique

  /** What XmlParseBuffer leaves behind: its return code and the context, or
      the index at which the C code's behaviour is undefined. */
  datatype ParseOutcome = Finished(err: int, xml: Xml) | Undefined(at: nat)

  /** The cursor designates a node of the forest (or is NULL) and every path
      in the forest is the one XmlCreateNode built for it. */
  predicate Consistent(xml: Xml)
  {
    ValidPos(xml.roots, xml.cursor) && PathsOk(xml.roots)
  }

  /** The node the cursor designates; None for a NULL cursor. */
  function CursorNode(xml: Xml): Option<Node>
    requires ValidPos(xml.roots, xml.cursor)
  {
    if xml.cursor == [] then None else Some(NodeAt(xml.roots, xml.cursor))
  }

  /** The number of nodes below the cursor (roots for a NULL cursor): the
      0-based index a node appended there receives. */
  function SlotCount(xml: Xml): nat
    requires ValidPos(xml.roots, xml.cursor)
  {
    if xml.cursor == [] then |xml.roots| else |NodeAt(xml.roots, xml.cursor).children|
  }

  /** Appending to a list of nodes keeps every old node where it was. */
  lemma AppendExtends(cs: seq<Node>, n: Node)
    ensures ForestExtends(cs, cs + [n])
  {
    ForestExtendsRefl(cs);
  }

  /** The node `n` appended below the cursor: XmlAddChildNode on the cursor
      node, or XmlAddRootNode for a NULL cursor. Nothing else changes. */
  function AppendUnderCursor(xml: Xml, n: Node): (r: Xml)
    requires ValidPos(xml.roots, xml.cursor)
    ensures r.cursor == xml.cursor && r.head == xml.head
    ensures xml.cursor == [] ==> r.roots == xml.roots + [n]
    ensures xml.cursor != [] ==>
              var parent := NodeAt(xml.roots, xml.cursor);
              r.roots == ReplaceAt(xml.roots, xml.cursor, parent.(children := parent.children + [n]))
    ensures ValidPos(r.roots, r.cursor) && ForestExtends(xml.roots, r.roots)
    ensures ValidPos(r.roots, r.cursor + [SlotCount(xml)]) && NodeAt(r.roots, r.cursor + [SlotCount(xml)]) == n
  {
    if xml.cursor == [] then
      var r := AddRootNode(xml, Some(n)).1;
      assert r.roots == xml.roots + [n];
      AppendExtends(xml.roots, n);
      ExtendPos(r.roots, [], |xml.roots|);
      r
    else
      var parent := NodeAt(xml.roots, xml.cursor);
      var grown := AddChildNode(parent, Some(n)).1;
      assert grown == parent.(children := parent.children + [n]);
      var roots := ReplaceAt(xml.roots, xml.cursor, grown);
      ReplaceAtFocus(xml.roots, xml.cursor, grown);
      AppendExtends(parent.children, n);
      ReplaceExtends(xml.roots, xml.cursor, grown);
      ExtendPos(roots, xml.cursor, |parent.children|);
      xml.(roots := roots)
  }

  /** A node carrying the path XmlCreateNode builds under the cursor keeps the
      forest's paths consistent when appended there. */
  lemma AppendKeepsPaths(xml: Xml, n: Node)
    requires Consistent(xml)
    requires n.path == ChildPath(CursorNode(xml), n.name) && LevelOk(Some(n.path), n.children)
    ensures Consistent(AppendUnderCursor(xml, n))
  {
    var r := AppendUnderCursor(xml, n);
    if xml.cursor == [] {
      assert r.roots == xml.roots + [n];
      assert forall i | 0 <= i < |xml.roots| :: r.roots[i] == xml.roots[i];
    } else {
      var parent := NodeAt(xml.roots, xml.cursor);
      var cs := parent.children + [n];
      LevelOkAt(None, xml.roots, xml.cursor);
      assert forall i | 0 <= i < |parent.children| :: cs[i] == parent.children[i];
      assert LevelOk(Some(parent.path), cs);
      ReplaceKeepsLevel(None, xml.roots, xml.cursor, parent.(children := cs));
    }
  }

  /** XmlAddAttribute applied to each name/value pair in turn. */
  function AddAttributes(node: Node, attrs: seq<Attribute>): (r: Node)
    ensures r == node.(attributes := node.attributes + attrs)
    decreases |attrs|
  {
    if |attrs| == 0 then node
    else
      var next := AddAttribute(Some(node), Some(attrs[0].name), Some(attrs[0].value)).1.value;
      assert next.attributes + attrs[1..] == node.attributes + attrs;
      AddAttributes(next, attrs[1..])
  }

  /** XmlStartHandler: an empty name is XML_BADARGS. Otherwise a node with the
      attributes in source order is appended below the cursor (or as a root)
      and becomes the cursor. */
  function StartHandler(xml: Xml, element: string, attrs: seq<Attribute>): (r: (int, Xml))
    requires ValidPos(xml.roots, xml.cursor)
    ensures element == "" ==> r == (BadArgs, xml)
    ensures element != "" ==>
              && r.0 == NoErr && r.1.head == xml.head
              && r.1 == AppendUnderCursor(xml, Node(element, ChildPath(CursorNode(xml), element), "", Simple, attrs, []))
                          .(cursor := xml.cursor + [SlotCount(xml)])
              && ValidPos(r.1.roots, r.1.cursor)
              && NodeAt(r.1.roots, r.1.cursor) == Node(element, ChildPath(CursorNode(xml), element), "", Simple, attrs, [])
  {
    if element == "" then (BadArgs, xml)
    else
      var n := AddAttributes(CreateNode(Some(element), None, CursorNode(xml)).value, attrs);
      assert n == Node(element, ChildPath(CursorNode(xml), element), "", Simple, attrs, []);
      var x := AppendUnderCursor(xml, n);
      (NoErr, x.(cursor := xml.cursor + [SlotCount(xml)]))
  }

  /** XmlEndHandler: the cursor moves to its parent, whatever `element` is; a
      NULL cursor is XML_GENERIC_ERR. */
  function EndHandler(xml: Xml, element: string): (r: (int, Xml))
    requires ValidPos(xml.roots, xml.cursor)
    ensures xml.cursor == [] ==> r == (GenericErr, xml)
    ensures xml.cursor != [] ==>
              && r.0 == NoErr && r.1.roots == xml.roots && r.1.head == xml.head
              && |r.1.cursor| + 1 == |xml.cursor| && ValidPos(r.1.roots, r.1.cursor)
              && xml.cursor == r.1.cursor + [xml.cursor[|xml.cursor| - 1]]
    ensures xml.cursor != [] && |xml.cursor| > 1 ==>
              NodeAt(xml.roots, xml.cursor) in NodeAt(r.1.roots, r.1.cursor).children
  {
    if xml.cursor == [] then (GenericErr, xml)
    else
      var c := xml.cursor[..|xml.cursor| - 1];
      assert xml.cursor == c + [xml.cursor[|xml.cursor| - 1]];
      SplitPos(xml.roots, c, xml.cursor[|xml.cursor| - 1]);
      (NoErr, xml.(cursor := c))
  }

  /** Every character of `s` is a blank. */
  predicate AllBlank(s: string)
  {
    forall i | 0 <= i < |s| :: s[i] in Blanks
  }

  /** `s` holds a character that is not a blank. */
  predicate HasText(s: string)
  {
    exists i | 0 <= i < |s| :: s[i] !in Blanks
  }

  /** The value handler's second loop: the end of `s[lo..hi]` walked back over
      blanks, never past its first character (the loop stops when it reaches
      the start of the text). */
  function TrimEnd(s: string, lo: nat, hi: nat): (j: nat)
    requires lo < hi <= |s|
    ensures lo < j <= hi
    ensures forall k | j <= k < hi :: s[k] in Blanks
    ensures j == lo + 1 || s[j - 1] !in Blanks
    decreases hi
  {
    if hi > lo + 1 && s[hi - 1] in Blanks then TrimEnd(s, lo, hi - 1) else hi
  }

  /** The text with its leading blanks (the value handler's first loop) and
      trailing blanks removed: what is left starts and ends with a character
      that is not a blank, and only blanks were cut on either side. */
  function Trim(text: string): (t: string)
    requires HasText(text)
    ensures |t| > 0 && t[0] !in Blanks && t[|t| - 1] !in Blanks
    ensures exists a, b :: AllBlank(a) && AllBlank(b) && text == a + t + b
  {
    var i := SkipBlanks(text, 0);
    TextAfterBlanks(text);
    var j := TrimEnd(text, i, |text|);
    TrimSplit(text, i, j);
    TrimEdges(text, i, j);
    text[i..j]
  }

  /** The kept text starts and ends with a character that is not a blank. */
  lemma TrimEdges(text: string, i: nat, j: nat)
    requires i < j <= |text| && text[i] !in Blanks && (j == i + 1 || text[j - 1] !in Blanks)
    ensures var t := text[i..j]; |t| > 0 && t[0] !in Blanks && t[|t| - 1] !in Blanks
  {
  }

  /** The leading blanks of a text with a non-blank character end before
      the text does. */
  lemma TextAfterBlanks(text: string)
    requires HasText(text)
    ensures SkipBlanks(text, 0) < |text|
  {
    var j :| 0 <= j < |text| && text[j] !in Blanks;
    assert !BlankAt(text, j);
  }

  /** The cuts of the value handler split the text into blanks, the kept
      text and blanks. */
  lemma TrimSplit(text: string, i: nat, j: nat)
    requires i < j <= |text|
    requires forall k | 0 <= k < i :: BlankAt(text, k)
    requires forall k | j <= k < |text| :: text[k] in Blanks
    ensures exists a, b :: AllBlank(a) && AllBlank(b) && text == a + text[i..j] + b
  {
    var a, b := text[..i], text[j..];
    assert text == a + text[i..j] + b;
    assert forall k | 0 <= k < |a| :: a[k] == text[k] && BlankAt(text, k);
    assert AllBlank(a) && AllBlank(b);
  }

  /** Trim undoes blank padding: the split of the text into blanks, kept text
      and blanks is unique. */
  lemma {:induction false} TrimBlankPadded(a: string, v: string, b: string)
    requires AllBlank(a) && AllBlank(b) && |v| > 0 && v[0] !in Blanks && v[|v| - 1] !in Blanks
    ensures HasText(a + v + b) && Trim(a + v + b) == v
  {
    var s := a + v + b;
    assert s[|a|] == v[0];
    var i := SkipBlanks(s, 0);
    assert forall k | 0 <= k < |a| :: s[k] == a[k];
    assert !BlankAt(s, |a|);
    assert i == |a|;
    var j := TrimEnd(s, i, |s|);
    assert s[|a| + |v| - 1] == v[|v| - 1];
    assert forall k | |a| + |v| <= k < |s| :: s[k] == b[k - |a| - |v|];
    assert j == |a| + |v|;
    assert s[i..j] == v;
  }

  /** XmlValueHandler: the trimmed text becomes the cursor's value; with a
      NULL cursor it is dropped. The text holds a non-blank character: the
      main loop only calls it on text that starts with one. */
  function ValueHandler(xml: Xml, text: string): (r: (int, Xml))
    requires ValidPos(xml.roots, xml.cursor)
    requires HasText(text)
    ensures r.0 == NoErr && r.1.cursor == xml.cursor && r.1.head == xml.head
    ensures xml.cursor == [] ==> r.1 == xml
    ensures xml.cursor != [] ==>
              r.1.roots == ReplaceAt(xml.roots, xml.cursor, NodeAt(xml.roots, xml.cursor).(value := Trim(text)))
    ensures ValidPos(r.1.roots, r.1.cursor) && ForestExtends(xml.roots, r.1.roots)
    ensures xml.cursor != [] ==> NodeAt(r.1.roots, xml.cursor).value == Trim(text)
  {
    if xml.cursor == [] then
      ForestExtendsRefl(xml.roots);
      (NoErr, xml)
    else
      var cur := NodeAt(xml.roots, xml.cursor);
      var n := SetNodeValue(cur, Some(Trim(text))).1;
      assert n == cur.(value := Trim(text));
      ReplaceAtFocus(xml.roots, xml.cursor, n);
      NodeExtendsRefl(cur);
      ReplaceExtends(xml.roots, xml.cursor, n);
      (NoErr, xml.(roots := ReplaceAt(xml.roots, xml.cursor, n)))
  }

  /** The name XmlExtraNodeHandler gives a comment or CDATA node:
      `_fakenode_<type>_`. */
  function FakeName(kind: NodeKind): (s: string)
    ensures kind == Comment ==> s == "_fakenode_1_"
    ensures kind == CData ==> s == "_fakenode_2_"
  {
    "_fakenode_" + [('0' as int + KindCode(kind)) as char] + "_"
  }

  /** XmlExtraNodeHandler: a COMMENT or CDATA node holding `content` verbatim
      is appended below the cursor (or as a root); the cursor does not move. */
  function ExtraNodeHandler(xml: Xml, content: string, kind: NodeKind): (r: (int, Xml))
    requires ValidPos(xml.roots, xml.cursor)
    requires kind != Simple
    ensures r.0 == NoErr && r.1.cursor == xml.cursor && r.1.head == xml.head
    ensures r.1 == AppendUnderCursor(xml, Node(FakeName(kind), ChildPath(CursorNode(xml), FakeName(kind)), content, kind, [], []))
  {
    var n := CreateNode(Some(FakeName(kind)), Some(content), CursorNode(xml)).value.(kind := kind);
    (NoErr, AppendUnderCursor(xml, n))
  }

  /** The outcome of one pass of the main loop: the parse is over, or it goes
      on at `next` in state `st` on context `xml`. */
  datatype Pass = Done(outcome: ParseOutcome) | Continue(next: nat, st: Phase, xml: Xml)

  /** A pass that goes on moves forward and leaves a cursor that designates
      a node (or is NULL). */
  predicate Advances(buf: string, p: nat, s: Pass)
  {
    s.Continue? ==> p < s.next <= |buf| && ValidPos(s.xml.roots, s.xml.cursor)
  }

  /** The context a pass leaves is consistent and has only grown. */
  predicate PassOk(buf: string, p: nat, xml: Xml, s: Pass)
  {
    match s
    case Done(o) => o.Finished? ==> Consistent(o.xml) && ForestExtends(xml.roots, o.xml.roots)
    case Continue(next, _, x) => p < next <= |buf| && Consistent(x) && ForestExtends(xml.roots, x.roots)
  }

  /** One pass of the main loop of XmlParseBuffer from index `p` in state
      `st`: blanks are skipped; at the NUL the loop ends; after a `<` the
      markup is handled; other text is the cursor's value in state START and
      is skipped one character at a time otherwise. A handler's error ends the
      parse with that error. */
  function Step(buf: string, p: nat, st: Phase, xml: Xml): (s: Pass)
    requires p <= |buf| && ValidPos(xml.roots, xml.cursor)
    ensures Advances(buf, p, s)
  {
    Dispatch(buf, SkipBlanks(buf, p), st, xml)
  }

  /** The pass after the blanks: `q` is the first character that is not a
      blank, or the NUL. */
  function Dispatch(buf: string, q: nat, st: Phase, xml: Xml): (s: Pass)
    requires q <= |buf| && At(buf, q) !in Blanks && ValidPos(xml.roots, xml.cursor)
    ensures Advances(buf, q, s)
  {
    if q == |buf| then Done(Finished(NoErr, xml))
    else if buf[q] == '<' then
      match ScanMarkup(buf, q + 1)
      case Halt => Done(Finished(NoErr, xml))
      case Broken => Done(Finished(ParserGenericErr, xml))
      case Unterminated => Done(Undefined(q + 1))
      case Close(name, next) =>
        var e := EndHandler(xml, name);
        if e.0 != NoErr then Done(Finished(e.0, xml)) else Continue(next, ElementEnd, e.1)
      case Skipped(next) => Continue(next, st, xml)
      case Special(kind, content, next) => Continue(next, st, ExtraNodeHandler(xml, content, kind).1)
      case Head(text, next) => Continue(next, st, xml.(head := Some(text)))
      case Open(name, attrs, unique, at) =>
        var s := StartHandler(xml, name, attrs);
        if s.0 != NoErr then Done(Finished(s.0, xml))
        else
          var x := if unique then EndHandler(s.1, name).1 else s.1;
          if at == |buf| then Done(Undefined(at + 1))
          else Continue(at + 1, if unique then ElementUnique else ElementStart, x)
    else if st == ElementStart then
      var e := ScanTo(buf, q, {'<'});
      if e == |buf| then Done(Finished(NoErr, xml))
      else
        assert buf[q..e][0] !in Blanks;
        Continue(e, ElementValue, ValueHandler(xml, buf[q..e]).1)
    else Continue(q + 1, st, xml)
  }

  /** A comment or CDATA pass keeps the context consistent. */
  lemma SpecialKeeps(buf: string, q: nat, st: Phase, xml: Xml, kind: NodeKind, content: string, next: nat)
    requires q < |buf| && buf[q] == '<' && Consistent(xml)
    requires ScanMarkup(buf, q + 1) == Special(kind, content, next)
    ensures PassOk(buf, q, xml, Dispatch(buf, q, st, xml))
  {
    AppendKeepsPaths(xml, Node(FakeName(kind), ChildPath(CursorNode(xml), FakeName(kind)), content, kind, [], []));
  }

  /** A start-tag pass keeps the context consistent. */
  lemma OpenKeeps(buf: string, q: nat, st: Phase, xml: Xml, name: string, attrs: seq<Attribute>, unique: bool, at: nat)
    requires q < |buf| && buf[q] == '<' && Consistent(xml)
    requires ScanMarkup(buf, q + 1) == Open(name, attrs, unique, at)
    ensures PassOk(buf, q, xml, Dispatch(buf, q, st, xml))
  {
    ForestExtendsRefl(xml.roots);
    if name != "" {
      StartKeepsConsistent(xml, name, attrs);
    }
  }

  /** A pass over other markup keeps the context consistent. */
  lemma MarkupKeeps(buf: string, q: nat, st: Phase, xml: Xml)
    requires q < |buf| && buf[q] == '<' && Consistent(xml)
    requires !ScanMarkup(buf, q + 1).Open? && !ScanMarkup(buf, q + 1).Special?
    ensures PassOk(buf, q, xml, Dispatch(buf, q, st, xml))
  {
    ForestExtendsRefl(xml.roots);
  }

  /** A pass over text keeps the context consistent. */
  lemma TextKeeps(buf: string, q: nat, st: Phase, xml: Xml)
    requires q < |buf| && buf[q] != '<' && buf[q] !in Blanks && Consistent(xml)
    ensures PassOk(buf, q, xml, Dispatch(buf, q, st, xml))
  {
    ForestExtendsRefl(xml.roots);
    if st == ElementStart {
      var e := ScanTo(buf, q, {'<'});
      if e < |buf| {
        assert buf[q..e][0] == buf[q];
        ValueKeepsPaths(xml, buf[q..e]);
      }
    }
  }

  /** Every pass keeps the context consistent and only grows the forest. */
  lemma DispatchKeeps(buf: string, q: nat, st: Phase, xml: Xml)
    requires q <= |buf| && At(buf, q) !in Blanks && Consistent(xml)
    ensures PassOk(buf, q, xml, Dispatch(buf, q, st, xml))
  {
    if q == |buf| {
      ForestExtendsRefl(xml.roots);
    } else if buf[q] == '<' {
      match ScanMarkup(buf, q + 1)
      case Special(kind, content, next) => SpecialKeeps(buf, q, st, xml, kind, content, next);
      case Open(name, attrs, unique, at) => OpenKeeps(buf, q, st, xml, name, attrs, unique, at);
      case _ => MarkupKeeps(buf, q, st, xml);
    } else {
      TextKeeps(buf, q, st, xml);
    }
  }

  /** The same for a pass started before the blanks. */
  lemma StepKeeps(buf: string, p: nat, st: Phase, xml: Xml)
    requires p <= |buf| && Consistent(xml)
    ensures PassOk(buf, p, xml, Step(buf, p, st, xml))
  {
    DispatchKeeps(buf, SkipBlanks(buf, p), st, xml);
  }

  /** The main loop of XmlParseBuffer from index `p` in state `st`: passes
      until one ends the parse. */
  function Run(buf: string, p: nat, st: Phase, xml: Xml): (r: ParseOutcome)
    requires p <= |buf| && ValidPos(xml.roots, xml.cursor)
    decreases |buf| - p, 1
  {
    RunAt(buf, SkipBlanks(buf, p), st, xml)
  }

  /** The main loop from a character that is not a blank, or the NUL. */
  function RunAt(buf: string, q: nat, st: Phase, xml: Xml): (r: ParseOutcome)
    requires q <= |buf| && At(buf, q) !in Blanks && ValidPos(xml.roots, xml.cursor)
    decreases |buf| - q, 0
  {
    match Dispatch(buf, q, st, xml)
    case Done(o) => o
    case Continue(next, st', x) => Run(buf, next, st', x)
  }

  /** The main loop is one pass followed by the rest of the loop. */
  lemma RunUnfold(buf: string, p: nat, st: Phase, xml: Xml)
    requires p <= |buf| && ValidPos(xml.roots, xml.cursor)
    ensures Run(buf, p, st, xml) == match Step(buf, p, st, xml)
                                    case Done(o) => o
                                    case Continue(next, st', x) => Run(buf, next, st', x)
  {
    assert Run(buf, p, st, xml) == RunAt(buf, SkipBlanks(buf, p), st, xml);
  }

  /** The context the main loop leaves is consistent and extends the one it
      started from: nodes are only ever added, values only ever set. */
  lemma {:induction false} RunKeeps(buf: string, p: nat, st: Phase, xml: Xml)
    requires p <= |buf| && Consistent(xml)
    ensures var r := Run(buf, p, st, xml);
            r.Finished? ==> Consistent(r.xml) && ForestExtends(xml.roots, r.xml.roots)
    decreases |buf| - p
  {
    StepKeeps(buf, p, st, xml);
    RunUnfold(buf, p, st, xml);
    match Step(buf, p, st, xml)
    case Done(o) =>
    case Continue(next, st', x) =>
      RunKeeps(buf, next, st', x);
      var r := Run(buf, next, st', x);
      if r.Finished? {
        ForestExtendsTrans(xml.roots, x.roots, r.xml.roots);
      }
  }

  /** A start tag (closed at once or not) keeps the context consistent. */
  lemma StartKeepsConsistent(xml: Xml, name: string, attrs: seq<Attribute>)
    requires Consistent(xml) && name != ""
    ensures var s := StartHandler(xml, name, attrs).1;
            Consistent(s) && ForestExtends(xml.roots, s.roots) && s.cursor != []
            && Consistent(EndHandler(s, name).1) && EndHandler(s, name).1.cursor == xml.cursor
  {
    var n := Node(name, ChildPath(CursorNode(xml), name), "", Simple, attrs, []);
    AppendKeepsPaths(xml, n);
  }

  /** Setting the cursor's value keeps the paths consistent. */
  lemma ValueKeepsPaths(xml: Xml, text: string)
    requires Consistent(xml)
    requires HasText(text)
    ensures Consistent(ValueHandler(xml, text).1)
  {
    if xml.cursor != [] {
      var o := NodeAt(xml.roots, xml.cursor);
      LevelOkAt(None, xml.roots, xml.cursor);
      ReplaceKeepsLevel(None, xml.roots, xml.cursor, o.(value := Trim(text)));
    }
  }

  /** XmlParseBuffer: the main loop over a NUL-free buffer, from state NONE
      on the given context. Any context with a valid cursor is accepted;
      when its paths are consistent, a finished parse leaves them so. */
  method ParseBuffer(xml0: Xml, buf: string) returns (r: ParseOutcome)
    requires '\0' !in buf
    requires ValidPos(xml0.roots, xml0.cursor)
    ensures r == Run(buf, 0, ElementNone, xml0)
    ensures Consistent(xml0) && r.Finished? ==> Consistent(r.xml) && ForestExtends(xml0.roots, r.xml.roots)
  {
    var xml := xml0;
    var st := ElementNone;
    var p := 0;
    while p < |buf|
      invariant p <= |buf| && ValidPos(xml.roots, xml.cursor)
      invariant Run(buf, p, st, xml) == Run(buf, 0, ElementNone, xml0)
      decreases |buf| - p
    {
      var s := Step(buf, p, st, xml);
      RunUnfold(buf, p, st, xml);
      match s {
        case Done(o) =>
          if Consistent(xml0) {
            RunKeeps(buf, 0, ElementNone, xml0);
          }
          return o;
        case Continue(next, st', x) =>
          xml, p, st := x, next, st';
      }
    }
    RunUnfold(buf, p, st, xml);
    r := Finished(NoErr, xml);
    if Consistent(xml0) {
      RunKeeps(buf, 0, ElementNone, xml0);
    }
  }
}
