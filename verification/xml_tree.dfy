/**
  The in-memory XML tree of txml.c: a context holding the list of root
  elements, the parse cursor and the header text, and nodes holding a name,
  a materialised path, a value, a kind, attributes and children.

  The tree is a value. Every list in it (roots, children, attributes) is a
  positional list of linklist.c, so its operations are the sequence edits of
  ListSpec. A node's `parent` pointer is not stored: the cursor is the
  position of the current node, a sequence of 0-based indices from the roots
  downwards, with the empty sequence standing for a NULL cursor; the parent
  of the node at `p` is the node at `p` minus its last index.
*/
module XmlTree {
  import opened Wrappers
  import ListSpec

  /** The error codes of txml.h. */
  const NoErr: int := 0
  const GenericErr: int := -1
  const BadArgs: int := -2
  const UpdateErr: int := -2
  const OpenFileErr: int := -3
  const ParserGenericErr: int := -4
  const MemoryErr: int := -5
  const LinkListErr: int := -6

  /** The node kinds of txml.h; Simple is the zero-initialised default. */
  datatype NodeKind = Simple | Comment | CData

  /** The numeric type tag stored in a node: XML_NODETYPE_SIMPLE,
      XML_NODETYPE_COMMENT and XML_NODETYPE_CDATA. Distinct kinds have
      distinct codes. */
  function KindCode(k: NodeKind): (c: int)
    ensures 0 <= c <= 2
    ensures (c == 0) == (k == Simple)
    ensures (c == 1) == (k == Comment)
    ensures (c == 2) == (k == CData)
  {
    match k
    case Simple => 0
    case Comment => 1
    case CData => 2
  }

  /** XmlNodeAttribute. */
  datatype Attribute = Attribute(name: string, value: string)

  /** XmlNode. The value is never NULL: a node is created with "" when no
      value is given, and XmlSetNodeValue refuses NULL. */
  datatype Node = Node(name: string, path: string, value: string, kind: NodeKind,
                       attributes: seq<Attribute>, children: seq<Node>)

  /** TXml: root list, parse cursor and the text of the last `<?...?>`. */
  datatype Xml = Xml(roots: seq<Node>, cursor: seq<nat>, head: Option<string>)

  /** XmlCreateContext. */
  function CreateContext(): (x: Xml)
    ensures |x.roots| == 0 && x.cursor == [] && x.head.None?
  {
    Xml([], [], None)
  }

  /** The path of a node called `name` below a node whose path is `pp`
      (a root when `pp` is None). */
  function PathUnder(pp: Option<string>, name: string): string
  {
    match pp
    case None => name
    case Some(x) => x + "/" + name
  }

  /** The materialised path of a node called `name` under `parent`. */
  function ChildPath(parent: Option<Node>, name: string): string
  {
    PathUnder(if parent.None? then None else Some(parent.value.path), name)
  }

  /** XmlCreateNode. NULL for a NULL name; otherwise a SIMPLE node with no
      children and no attributes whose value is a copy of `value` ("" for NULL
      or empty) and whose path extends the parent's. The node is not added to
      the parent's children. */
  function CreateNode(name: Option<string>, value: Option<string>, parent: Option<Node>): (r: Option<Node>)
    ensures r.None? <==> name.None?
    ensures r.Some? ==> && r.value.name == name.value
                        && r.value.kind == Simple
                        && r.value.attributes == [] && r.value.children == []
                        && (value.Some? ==> r.value.value == value.value)
                        && (value.None? ==> r.value.value == "")
    ensures r.Some? && parent.None? ==> r.value.path == name.value
    ensures r.Some? && parent.Some? ==>
              && |r.value.path| == |parent.value.path| + 1 + |name.value|
              && r.value.path[..|parent.value.path|] == parent.value.path
              && r.value.path[|parent.value.path|] == '/'
              && r.value.path[|parent.value.path| + 1..] == name.value
  {
    if name.None? then None
    else
      var v := if value.Some? && |value.value| > 0 then value.value else "";
      Some(Node(name.value, ChildPath(parent, name.value), v, Simple, [], []))
  }

  /** XmlGetNodeValue. */
  function GetNodeValue(node: Option<Node>): Option<string>
  {
    match node
    case None => None
    case Some(n) => Some(n.value)
  }

  /** XmlSetNodeValue: replace the value; a NULL value is refused. */
  function SetNodeValue(node: Node, val: Option<string>): (r: (int, Node))
    ensures val.None? <==> r.0 == BadArgs
    ensures val.Some? ==> r.0 == NoErr
    ensures val.None? ==> r.1 == node
    ensures val.Some? ==> r.1.value == val.value
    ensures r.1.name == node.name && r.1.path == node.path && r.1.kind == node.kind
    ensures r.1.attributes == node.attributes && r.1.children == node.children
  {
    if val.None? then (BadArgs, node) else (NoErr, node.(value := val.value))
  }

  /** XmlAddChildNode: append `child` to the parent's children. The child's
      path is left as it was built. */
  function AddChildNode(parent: Node, child: Option<Node>): (r: (int, Node))
    ensures child.None? <==> r.0 == BadArgs
    ensures child.Some? ==> r.0 == NoErr
    ensures r.1.name == parent.name && r.1.path == parent.path && r.1.value == parent.value
    ensures r.1.kind == parent.kind && r.1.attributes == parent.attributes
    ensures child.None? ==> r.1.children == parent.children
    ensures child.Some? ==> && |r.1.children| == |parent.children| + 1
                            && r.1.children[..|parent.children|] == parent.children
                            && r.1.children[|parent.children|] == child.value
  {
    if child.None? then (BadArgs, parent)
    else (NoErr, parent.(children := parent.children + [child.value]))
  }

  /** XmlAddRootNode: append a root; there is no limit on their number. */
  function AddRootNode(xml: Xml, node: Option<Node>): (r: (int, Xml))
    ensures node.None? <==> r.0 == BadArgs
    ensures node.Some? ==> r.0 == NoErr
    ensures r.1.cursor == xml.cursor && r.1.head == xml.head
    ensures node.None? ==> r.1.roots == xml.roots
    ensures node.Some? ==> && |r.1.roots| == |xml.roots| + 1
                           && r.1.roots[..|xml.roots|] == xml.roots
                           && r.1.roots[|xml.roots|] == node.value
  {
    if node.None? then (BadArgs, xml)
    else (NoErr, xml.(roots := xml.roots + [node.value]))
  }

  /** XmlAddAttribute: append an attribute; a NULL value is stored as "". */
  function AddAttribute(node: Option<Node>, name: Option<string>, val: Option<string>): (r: (int, Option<Node>))
    ensures node.None? || name.None? <==> r.0 == BadArgs
    ensures node.Some? && name.Some? ==> r.0 == NoErr
    ensures r.1.None? <==> node.None?
    ensures name.None? ==> r.1 == node
    ensures r.1.Some? ==> && r.1.value.name == node.value.name && r.1.value.path == node.value.path
                          && r.1.value.value == node.value.value && r.1.value.kind == node.value.kind
                          && r.1.value.children == node.value.children
    ensures node.Some? && name.Some? ==>
              && |r.1.value.attributes| == |node.value.attributes| + 1
              && r.1.value.attributes[..|node.value.attributes|] == node.value.attributes
              && r.1.value.attributes[|node.value.attributes|].name == name.value
              && r.1.value.attributes[|node.value.attributes|].value == val.GetOr("")
  {
    if name.None? || node.None? then (BadArgs, node)
    else
      var n := node.value;
      (NoErr, Some(n.(attributes := n.attributes + [Attribute(name.value, val.GetOr(""))])))
  }

  /** XmlCountAttributes, XmlCountChildren, XmlCountBranches. */
  function CountAttributes(node: Node): nat { |node.attributes| }
  function CountChildren(node: Node): nat { |node.children| }
  function CountBranches(xml: Xml): nat { |xml.roots| }

  /** XmlGetAttribute: the index-th attribute (1-based), as PickValue. */
  function GetAttribute(node: Node, index: nat): (r: Option<Attribute>)
    ensures 1 <= index <= |node.attributes| ==> r == Some(node.attributes[index - 1])
    ensures index > |node.attributes| ==> r.None?
  {
    ListSpec.Pick(node.attributes, index)
  }

  /** XmlGetChildNode: the index-th child (1-based); NULL for a NULL node. */
  function GetChildNode(node: Option<Node>, index: nat): (r: Option<Node>)
    ensures node.None? ==> r.None?
    ensures node.Some? && 1 <= index <= |node.value.children| ==> r == Some(node.value.children[index - 1])
    ensures node.Some? && index > |node.value.children| ==> r.None?
  {
    if node.None? then None else ListSpec.Pick(node.value.children, index)
  }

  /** XmlGetBranch: the index-th root (1-based). */
  function GetBranch(xml: Xml, index: nat): (r: Option<Node>)
    ensures 1 <= index <= |xml.roots| ==> r == Some(xml.roots[index - 1])
    ensures index > |xml.roots| ==> r.None?
  {
    ListSpec.Pick(xml.roots, index)
  }

  /** XmlRemoveAttribute at the positions where FetchValue is well defined:
      the first, the last, or past the end. */
  function RemoveAttribute(node: Node, index: nat): (r: (int, Node))
    requires ListSpec.AtEnds(|node.attributes|, index) && (index == 0 ==> |node.attributes| == 0)
    ensures r.0 == NoErr <==> 1 <= index <= |node.attributes|
    ensures r.0 != NoErr ==> r.0 == GenericErr && r.1 == node
    ensures r.1.name == node.name && r.1.path == node.path && r.1.value == node.value
    ensures r.1.kind == node.kind && r.1.children == node.children
    ensures r.0 == NoErr ==> && |r.1.attributes| + 1 == |node.attributes|
                             && r.1.attributes[..index - 1] + [node.attributes[index - 1]]
                                + r.1.attributes[index - 1..] == node.attributes
  {
    ListSpec.FetchAgreesAtEnds(node.attributes, index);
    var f := ListSpec.FetchAsWritten(node.attributes, index);
    if f.taken.Some? then (NoErr, node.(attributes := f.rest)) else (GenericErr, node)
  }

  /** XmlClearAttributes: remove the attributes from the last one down. */
  method ClearAttributes(node: Node) returns (r: Node)
    ensures r.attributes == []
    ensures r == node.(attributes := [])
  {
    r := node;
    var i := CountAttributes(node);
    while i > 0
      invariant i == |r.attributes|
      invariant r.attributes == node.attributes[..i]
      invariant r == node.(attributes := r.attributes)
    {
      var res := RemoveAttribute(r, i);
      r := res.1;
      i := i - 1;
    }
  }

  /** The 0-based position of the first node named `name`, if any. */
  function FirstNamed(s: seq<Node>, name: string): (r: Option<nat>)
    ensures r.None? ==> forall i | 0 <= i < |s| :: s[i].name != name
    ensures r.Some? ==> r.value < |s| && s[r.value].name == name
                        && forall j | 0 <= j < r.value :: s[j].name != name
  {
    if |s| == 0 then None
    else if s[0].name == name then Some(0)
    else match FirstNamed(s[1..], name)
      case None => None
      case Some(k) => Some(k + 1)
  }

  /** XmlGetChildNodeByName: the first child with the given name. */
  method GetChildNodeByName(node: Option<Node>, name: string) returns (r: Option<Node>)
    ensures node.None? ==> r.None?
    ensures node.Some? ==> (r.None? <==> forall i | 0 <= i < |node.value.children| :: node.value.children[i].name != name)
    ensures r.Some? ==> exists i | 0 <= i < |node.value.children| ::
                          && node.value.children[i] == r.value && r.value.name == name
                          && forall j | 0 <= j < i :: node.value.children[j].name != name
  {
    if node.None? {
      return None;
    }
    var n := node.value;
    var i := 1;
    while i <= CountChildren(n)
      invariant 1 <= i <= |n.children| + 1
      invariant forall j | 0 <= j < i - 1 :: n.children[j].name != name
    {
      var child := GetChildNode(node, i);
      if child.value.name == name {
        return child;
      }
      i := i + 1;
    }
    return None;
  }

  /** XmlSubstBranch at the positions where SubstValue is well defined:
      index 1, an index past the end, or an empty root list. */
  function SubstBranch(xml: Xml, index: nat, newBranch: Node): (r: (int, Xml))
    requires index == 1 || index > |xml.roots| || |xml.roots| == 0
    ensures r.0 == NoErr <==> 1 <= index <= |xml.roots|
    ensures r.0 != NoErr ==> r.0 == LinkListErr && r.1 == xml
    ensures r.1.cursor == xml.cursor && r.1.head == xml.head
    ensures r.0 == NoErr ==> && |r.1.roots| == |xml.roots| && r.1.roots[index - 1] == newBranch
                             && forall i | 0 <= i < |xml.roots| && i != index - 1 :: r.1.roots[i] == xml.roots[i]
  {
    ListSpec.SubstAgreesAtFront(xml.roots, index, newBranch);
    var s := ListSpec.SubstAsWritten(xml.roots, index, newBranch);
    if s.taken.Some? then (NoErr, xml.(roots := s.rest)) else (LinkListErr, xml)
  }

  /** Every reading accessor sees what the appending operations stored. */
  lemma AppendsAreVisible(xml: Xml, parent: Node, child: Node, node: Node, name: string, val: Option<string>)
    ensures var p := AddChildNode(parent, Some(child)).1;
            CountChildren(p) == CountChildren(parent) + 1
            && GetChildNode(Some(p), CountChildren(p)) == Some(child)
            && forall i | 1 <= i <= CountChildren(parent) :: GetChildNode(Some(p), i) == GetChildNode(Some(parent), i)
    ensures var x := AddRootNode(xml, Some(node)).1;
            CountBranches(x) == CountBranches(xml) + 1
            && GetBranch(x, CountBranches(x)) == Some(node)
            && forall i | 1 <= i <= CountBranches(xml) :: GetBranch(x, i) == GetBranch(xml, i)
    ensures var n := AddAttribute(Some(node), Some(name), val).1.value;
            CountAttributes(n) == CountAttributes(node) + 1
            && GetAttribute(n, CountAttributes(n)) == Some(Attribute(name, val.GetOr("")))
            && forall i | 1 <= i <= CountAttributes(node) :: GetAttribute(n, i) == GetAttribute(node, i)
  {
  }

  /** Setting a value is observed by XmlGetNodeValue and changes nothing else. */
  lemma SetThenGetValue(node: Node, v: string)
    ensures GetNodeValue(Some(SetNodeValue(node, Some(v)).1)) == Some(v)
    ensures SetNodeValue(node, Some(v)).1 == node.(value := v)
  {
  }

  /** Substituting branch 1 and reading it back gives the new branch. */
  lemma SubstThenGetBranch(xml: Xml, b: Node)
    requires |xml.roots| > 0
    ensures var r := SubstBranch(xml, 1, b);
            r.0 == NoErr && GetBranch(r.1, 1) == Some(b) && CountBranches(r.1) == CountBranches(xml)
  {
  }

  // ---------------------------------------------------------------------
  // Positions: how the cursor designates a node.
  // ---------------------------------------------------------------------

  /** `p` designates a node reachable from `roots` (or is the NULL cursor). */
  predicate ValidPos(roots: seq<Node>, p: seq<nat>)
    decreases |p|
  {
    |p| == 0 || (p[0] < |roots| && ValidPos(roots[p[0]].children, p[1..]))
  }

  /** The node at a non-empty valid position. */
  function NodeAt(roots: seq<Node>, p: seq<nat>): Node
    requires ValidPos(roots, p) && |p| > 0
    decreases |p|
  {
    if |p| == 1 then roots[p[0]] else NodeAt(roots[p[0]].children, p[1..])
  }

  /** The forest with the node at `p` replaced by `n`. */
  function ReplaceAt(roots: seq<Node>, p: seq<nat>, n: Node): (r: seq<Node>)
    requires ValidPos(roots, p) && |p| > 0
    ensures |r| == |roots|
    decreases |p|
  {
    var cur := roots[p[0]];
    if |p| == 1 then roots[p[0] := n]
    else roots[p[0] := cur.(children := ReplaceAt(cur.children, p[1..], n))]
  }

  /** After replacing the node at `p`, `p` still designates a node: the new one. */
  lemma {:induction false} ReplaceAtFocus(roots: seq<Node>, p: seq<nat>, n: Node)
    requires ValidPos(roots, p) && |p| > 0
    ensures ValidPos(ReplaceAt(roots, p, n), p) && NodeAt(ReplaceAt(roots, p, n), p) == n
    decreases |p|
  {
    if |p| > 1 {
      ReplaceAtFocus(roots[p[0]].children, p[1..], n);
    }
  }

  /** Replacing a child of a node just put at `p` is putting the node with
      that child replaced. */
  lemma {:induction false} ReplaceBelow(roots: seq<Node>, p: seq<nat>, q: Node, k: nat, m: Node)
    requires ValidPos(roots, p) && |p| > 0 && k < |q.children|
    ensures ValidPos(ReplaceAt(roots, p, q), p + [k])
    ensures ReplaceAt(ReplaceAt(roots, p, q), p + [k], m) == ReplaceAt(roots, p, q.(children := q.children[k := m]))
    decreases |p|
  {
    var r := ReplaceAt(roots, p, q);
    assert (p + [k])[0] == p[0] && (p + [k])[1..] == p[1..] + [k];
    if |p| > 1 {
      var o := roots[p[0]];
      ReplaceBelow(o.children, p[1..], q, k, m);
    }
  }

  /** A valid position extended by the index of one of its node's children
      designates that child. */
  lemma {:induction false} ExtendPos(roots: seq<Node>, p: seq<nat>, k: nat)
    requires ValidPos(roots, p)
    requires |p| == 0 ==> k < |roots|
    requires |p| > 0 ==> k < |NodeAt(roots, p).children|
    ensures ValidPos(roots, p + [k])
    ensures NodeAt(roots, p + [k]) == if |p| == 0 then roots[k] else NodeAt(roots, p).children[k]
    decreases |p|
  {
    if |p| > 0 {
      assert (p + [k])[1..] == p[1..] + [k];
      ExtendPos(roots[p[0]].children, p[1..], k);
    }
  }

  /** Dropping the last index of a valid position gives a valid position: the
      parent of a node is reachable. */
  lemma {:induction false} ParentPos(roots: seq<Node>, p: seq<nat>)
    requires ValidPos(roots, p) && |p| > 0
    ensures ValidPos(roots, p[..|p| - 1])
    decreases |p|
  {
    if |p| > 1 {
      assert p[..|p| - 1][1..] == p[1..][..|p| - 2];
      ParentPos(roots[p[0]].children, p[1..]);
    }
  }

  /** A valid position splits into its parent's position and the index of
      the node among the parent's children (or among the roots). */
  lemma {:induction false} SplitPos(roots: seq<Node>, c: seq<nat>, k: nat)
    requires ValidPos(roots, c + [k])
    ensures ValidPos(roots, c)
    ensures |c| == 0 ==> k < |roots| && NodeAt(roots, c + [k]) == roots[k]
    ensures |c| > 0 ==> k < |NodeAt(roots, c).children| && NodeAt(roots, c + [k]) == NodeAt(roots, c).children[k]
    decreases |c|
  {
    if |c| > 0 {
      assert (c + [k])[1..] == c[1..] + [k];
      SplitPos(roots[c[0]].children, c[1..], k);
    }
  }

  // ---------------------------------------------------------------------
  // Tree invariants kept by the parser.
  // ---------------------------------------------------------------------

  /** Each node of the list `cs`, whose parent has path `pp`, carries the
      path XmlCreateNode builds for it, and so does every node below. */
  predicate LevelOk(pp: Option<string>, cs: seq<Node>)
    decreases cs
  {
    forall i | 0 <= i < |cs| :: cs[i].path == PathUnder(pp, cs[i].name) && LevelOk(Some(cs[i].path), cs[i].children)
  }

  /** Every path in the forest spells the names from its root down. */
  predicate PathsOk(roots: seq<Node>)
  {
    LevelOk(None, roots)
  }

  /** The node at a position of a consistent list is itself consistent below. */
  lemma {:induction false} LevelOkAt(pp: Option<string>, cs: seq<Node>, p: seq<nat>)
    requires LevelOk(pp, cs) && ValidPos(cs, p) && |p| > 0
    ensures LevelOk(Some(NodeAt(cs, p).path), NodeAt(cs, p).children)
    decreases |p|
  {
    if |p| > 1 {
      LevelOkAt(Some(cs[p[0]].path), cs[p[0]].children, p[1..]);
    }
  }

  /** The path of the node at a position depends only on its parent: the
      parent's path, or none for a root. */
  lemma {:induction false} PathAt(pp: Option<string>, cs: seq<Node>, p: seq<nat>)
    requires LevelOk(pp, cs) && ValidPos(cs, p) && |p| > 0
    ensures |p| == 1 ==> NodeAt(cs, p).path == PathUnder(pp, NodeAt(cs, p).name)
    ensures |p| > 1 ==> (ValidPos(cs, p[..|p| - 1]) &&
              NodeAt(cs, p).path == PathUnder(Some(NodeAt(cs, p[..|p| - 1]).path), NodeAt(cs, p).name))
    decreases |p|
  {
    if |p| > 1 {
      ParentPos(cs, p);
      PathAt(Some(cs[p[0]].path), cs[p[0]].children, p[1..]);
      assert p[..|p| - 1][1..] == p[1..][..|p| - 2];
    }
  }

  /** Replacing a node by a consistent one with the same name and path keeps
      the whole list consistent. */
  lemma {:induction false} ReplaceKeepsLevel(pp: Option<string>, cs: seq<Node>, p: seq<nat>, n: Node)
    requires LevelOk(pp, cs) && ValidPos(cs, p) && |p| > 0
    requires n.name == NodeAt(cs, p).name && n.path == NodeAt(cs, p).path
    requires LevelOk(Some(n.path), n.children)
    ensures LevelOk(pp, ReplaceAt(cs, p, n))
    decreases |p|
  {
    var r := ReplaceAt(cs, p, n);
    if |p| > 1 {
      var o := cs[p[0]];
      ReplaceKeepsLevel(Some(o.path), o.children, p[1..], n);
      assert r[p[0]] == o.(children := ReplaceAt(o.children, p[1..], n));
    }
    forall i | 0 <= i < |r|
      ensures r[i].path == PathUnder(pp, r[i].name) && LevelOk(Some(r[i].path), r[i].children)
    {
      if i != p[0] {
        assert r[i] == cs[i];
      }
    }
  }

  /** `b` is `a` with possibly new values and more descendants: nothing that
      was there has been removed, renamed, moved or given other attributes. */
  predicate NodeExtends(a: Node, b: Node)
    decreases a
  {
    && a.name == b.name && a.path == b.path && a.kind == b.kind && a.attributes == b.attributes
    && ForestExtends(a.children, b.children)
  }

  /** Each node of `xs` is extended by the node at the same index of `ys`,
      which may have more nodes after them. */
  predicate ForestExtends(xs: seq<Node>, ys: seq<Node>)
    decreases xs
  {
    |xs| <= |ys| && forall i | 0 <= i < |xs| :: NodeExtends(xs[i], ys[i])
  }

  lemma {:induction false} NodeExtendsRefl(a: Node)
    ensures NodeExtends(a, a)
    decreases a
  {
    forall i | 0 <= i < |a.children|
      ensures NodeExtends(a.children[i], a.children[i])
    {
      NodeExtendsRefl(a.children[i]);
    }
  }

  lemma {:induction false} ForestExtendsRefl(xs: seq<Node>)
    ensures ForestExtends(xs, xs)
  {
    forall i | 0 <= i < |xs|
      ensures NodeExtends(xs[i], xs[i])
    {
      NodeExtendsRefl(xs[i]);
    }
  }

  lemma {:induction false} NodeExtendsTrans(a: Node, b: Node, c: Node)
    requires NodeExtends(a, b) && NodeExtends(b, c)
    ensures NodeExtends(a, c)
    decreases a
  {
    forall i | 0 <= i < |a.children|
      ensures NodeExtends(a.children[i], c.children[i])
    {
      NodeExtendsTrans(a.children[i], b.children[i], c.children[i]);
    }
  }

  /** Growth composes: the parser's steps add up to growth of the forest. */
  lemma {:induction false} ForestExtendsTrans(xs: seq<Node>, ys: seq<Node>, zs: seq<Node>)
    requires ForestExtends(xs, ys) && ForestExtends(ys, zs)
    ensures ForestExtends(xs, zs)
  {
    forall i | 0 <= i < |xs|
      ensures NodeExtends(xs[i], zs[i])
    {
      NodeExtendsTrans(xs[i], ys[i], zs[i]);
    }
  }

  /** Replacing a node by an extension of it extends the forest. */
  lemma {:induction false} ReplaceExtends(cs: seq<Node>, p: seq<nat>, n: Node)
    requires ValidPos(cs, p) && |p| > 0
    requires NodeExtends(NodeAt(cs, p), n)
    ensures ForestExtends(cs, ReplaceAt(cs, p, n))
    decreases |p|
  {
    var r := ReplaceAt(cs, p, n);
    var o := cs[p[0]];
    if |p| > 1 {
      ReplaceExtends(o.children, p[1..], n);
      NodeExtendsRefl(o);
      assert NodeExtends(o, r[p[0]]);
    }
    forall i | 0 <= i < |cs|
      ensures NodeExtends(cs[i], r[i])
    {
      if i != p[0] {
        NodeExtendsRefl(cs[i]);
      }
    }
  }
}
