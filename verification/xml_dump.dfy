/**
  XmlDumpBranch and XmlDump (txml.c): the text form of a node and of a whole
  context. A node at depth d is indented with d tabs. Comments and CDATA
  sections are written verbatim in their markup. A simple node is written
  with its attributes (two spaces between consecutive ones), its value and
  an explicit end tag: since a value is never NULL, the `<name/>` form of the
  C code is never produced. Values are not escaped.
*/
module XmlDump {
  import opened Wrappers
  import opened XmlTree

  /** The head written when the context holds none. */
  const DefaultHead: string := "xml version=\"1.0\""

  /** `d` tab characters. */
  function Tabs(d: nat): (t: string)
    ensures |t| == d && forall i | 0 <= i < d :: t[i] == '\t'
  {
    if d == 0 then "" else Tabs(d - 1) + "\t"
  }

  /** The attribute list of a start tag: ` name="value"` for each attribute,
      with one more space after the closing quote of all but the last. */
  function AttributesText(attrs: seq<Attribute>): string
  {
    if |attrs| == 0 then ""
    else
      " " + attrs[0].name + "=\"" + attrs[0].value + "\"" + (if |attrs| > 1 then " " else "")
      + AttributesText(attrs[1..])
  }

  /** The name and attribute list of a start tag. */
  function TagText(n: Node): string
  {
    n.name + AttributesText(n.attributes)
  }

  /** The start tag of a simple node up to (not including) its `>`. */
  function OpenTag(n: Node, depth: nat): string
  {
    Tabs(depth) + "<" + TagText(n)
  }

  /** The end tag of a simple node, with its line break. */
  function CloseTag(n: Node): string
  {
    "</" + n.name + ">\n"
  }

  /** The line holding the value of a simple node with children: none for
      an empty value. */
  function ValueLine(n: Node, depth: nat): string
  {
    if n.value != "" then Tabs(depth) + n.value + "\n" else ""
  }

  /** XmlDumpBranch of `n` at `depth`. */
  function DumpBranch(n: Node, depth: nat): (r: string)
    decreases n, 1
  {
    match n.kind
    case Comment => Tabs(depth) + "<!--" + n.value + "-->\n"
    case CData => Tabs(depth) + "<![CDATA[" + n.value + "]]>\n"
    case Simple =>
      if |n.children| > 0 then
        OpenTag(n, depth) + ">\n" + ValueLine(n, depth)
        + DumpChildren(n.children, depth + 1)
        + Tabs(depth) + CloseTag(n)
      else
        OpenTag(n, depth) + ">" + n.value + CloseTag(n)
  }

  /** The branches of `cs`, one after the other, at the same depth. */
  function DumpChildren(cs: seq<Node>, depth: nat): (r: string)
    decreases cs, 0
  {
    if |cs| == 0 then "" else DumpBranch(cs[0], depth) + DumpChildren(cs[1..], depth)
  }

  /** XmlDump: the head in `<?...?>` followed by every root at depth 0. */
  function Dump(xml: Xml): (r: string)
  {
    "<?" + xml.head.GetOr(DefaultHead) + "?>\n" + DumpChildren(xml.roots, 0)
  }
}
