/**
  XmlGetNode (txml.c): a node looked up by a slash-separated path of names.
  The path is cut into tokens the way strtok_r cuts it with the delimiter
  "/": runs of slashes separate tokens and empty tokens never appear. The
  first token is matched against the root names and each later one against
  the children of the node reached so far; at every level the first node
  with the name wins. A node without children stops the walk: the remaining
  tokens are read but leave the node found unchanged.
*/
module XmlPath {
  import opened Wrappers
  import opened XmlTree
  import opened XmlScan

  /** A token strtok can return: non-empty and free of the delimiter. */
  predicate Segment(s: string)
  {
    |s| > 0 && '/' !in s
  }

  /** The tokens of `path`, in order. */
  function Segments(path: string): (r: seq<string>)
    ensures forall i | 0 <= i < |r| :: Segment(r[i])
    ensures |r| <= |path|
    decreases |path|
  {
    if |path| == 0 then []
    else if path[0] == '/' then Segments(path[1..])
    else
      var k := ScanTo(path, 0, {'/'});
      assert k > 0;
      assert forall i | 0 <= i < k :: path[..k][i] == path[i];
      [path[..k]] + Segments(path[k..])
  }

  /** The names joined with single slashes: the inverse of `Segments`. */
  function Join(segs: seq<string>): string
  {
    if |segs| == 0 then "" else if |segs| == 1 then segs[0] else segs[0] + "/" + Join(segs[1..])
  }

  /** Joining tokens and cutting the result gives the tokens back. */
  lemma {:induction false} SegmentsOfJoin(segs: seq<string>)
    requires forall i | 0 <= i < |segs| :: Segment(segs[i])
    ensures Segments(Join(segs)) == segs
  {
    if |segs| > 0 {
      var x := segs[0];
      var s := Join(segs);
      assert Segment(x);
      var k := ScanTo(s, 0, {'/'});
      if |segs| == 1 {
        assert s == x;
        assert k == |x|;
        assert s[..k] == x && s[k..] == [];
      } else {
        var rest := Join(segs[1..]);
        assert s == x + "/" + rest;
        assert s[|x|] == '/';
        assert forall i | 0 <= i < |x| :: s[i] == x[i];
        assert k == |x|;
        assert s[..k] == x;
        assert s[k..] == "/" + rest;
        assert s[k..][1..] == rest;
        SegmentsOfJoin(segs[1..]);
      }
    }
  }

  /** Leading slashes (the loop before strtok_r) change nothing. */
  lemma LeadingSlashIgnored(path: string)
    ensures Segments("/" + path) == Segments(path)
  {
    assert ("/" + path)[1..] == path;
  }

  /** The walk below the node `n` along the remaining tokens: the first child
      with the next name is entered; a miss is NULL; a node without children
      is the answer, whatever tokens remain. */
  function Descend(n: Node, segs: seq<string>): (r: Option<Node>)
    decreases |segs|
  {
    if |segs| == 0 || |n.children| == 0 then Some(n)
    else match FirstNamed(n.children, segs[0])
      case None => None
      case Some(i) => Descend(n.children[i], segs[1..])
  }

  /** The reference lookup: NULL for a NULL path or a path with no tokens;
      otherwise the first root with the first name, then `Descend`. */
  function Lookup(xml: Xml, path: Option<string>): (r: Option<Node>)
  {
    if path.None? then None
    else
      var segs := Segments(path.value);
      if |segs| == 0 then None
      else match FirstNamed(xml.roots, segs[0])
        case None => None
        case Some(i) => Descend(xml.roots[i], segs[1..])
  }

  /** XmlGetNode, with the loops of the C code: a scan of the roots for the
      first token, then for each further token a scan of the current node's
      children. `found` plays the part of the C variable wNode, which keeps
      its last value when a node has no children to scan. */
  method GetNode(xml: Xml, path: Option<string>) returns (r: Option<Node>)
    ensures r == Lookup(xml, path)
    ensures path.None? || |Segments(path.value)| == 0 ==> r.None?
    ensures r.Some? && path.Some? ==>
              exists i | 0 <= i < |xml.roots| :: xml.roots[i].name == Segments(path.value)[0]
  {
    if path.None? {
      return None;
    }
    var segs := Segments(path.value);
    if |segs| == 0 {
      return None;
    }
    var i := 0;
    while i < |xml.roots| && xml.roots[i].name != segs[0]
      invariant i <= |xml.roots|
      invariant forall j | 0 <= j < i :: xml.roots[j].name != segs[0]
    {
      i := i + 1;
    }
    if i == |xml.roots| {
      return None;
    }
    assert FirstNamed(xml.roots, segs[0]) == Some(i);
    var cur := xml.roots[i];
    var k := 1;
    while k < |segs|
      invariant 1 <= k <= |segs|
      invariant Descend(cur, segs[k..]) == Lookup(xml, path)
    {
      var c := 0;
      var found := true;
      while c < |cur.children|
        invariant c <= |cur.children|
        invariant forall j | 0 <= j < c :: cur.children[j].name != segs[k]
        invariant found <==> c == 0
      {
        if cur.children[c].name == segs[k] {
          break;
        }
        c := c + 1;
        found := false;
      }
      if c < |cur.children| {
        assert FirstNamed(cur.children, segs[k]) == Some(c);
        assert segs[k..][1..] == segs[k + 1..];
        cur := cur.children[c];
      } else if !found {
        assert FirstNamed(cur.children, segs[k]).None?;
        return None;
      } else {
        assert Descend(cur, segs[k + 1..]) == Some(cur);
      }
      k := k + 1;
    }
    return Some(cur);
  }

  /** The names of the nodes along a position, from the root down. */
  function NamesAlong(roots: seq<Node>, p: seq<nat>): (r: seq<string>)
    requires ValidPos(roots, p)
    ensures |r| == |p|
    decreases |p|
  {
    if |p| == 0 then [] else [roots[p[0]].name] + NamesAlong(roots[p[0]].children, p[1..])
  }

  /** Every step of the position enters the first node of its name among its
      siblings: the nodes a lookup by name can reach. */
  predicate FirstOfName(roots: seq<Node>, p: seq<nat>)
    decreases |p|
  {
    |p| == 0 || (p[0] < |roots| && FirstNamed(roots, roots[p[0]].name) == Some(p[0])
                 && FirstOfName(roots[p[0]].children, p[1..]))
  }

  /** The walk from `n` along the names of a first-of-name position ends on
      the node there; if that node has no children, further tokens are
      ignored. */
  lemma {:induction false} DescendAlong(n: Node, p: seq<nat>, extra: seq<string>)
    requires ValidPos(n.children, p) && FirstOfName(n.children, p)
    requires extra == [] || (if |p| == 0 then n.children == [] else NodeAt(n.children, p).children == [])
    ensures Descend(n, NamesAlong(n.children, p) + extra) == Some(if |p| == 0 then n else NodeAt(n.children, p))
    decreases |p|
  {
    if |p| > 0 {
      var c := n.children[p[0]];
      var segs := NamesAlong(n.children, p) + extra;
      assert segs[0] == c.name;
      assert segs[1..] == NamesAlong(c.children, p[1..]) + extra;
      DescendAlong(c, p[1..], extra);
    }
  }

  /** XmlGetNode on the names along a first-of-name position returns the
      node there, followed by any tokens when that node has no children. */
  lemma LookupAlong(xml: Xml, p: seq<nat>, extra: seq<string>)
    requires |p| > 0 && ValidPos(xml.roots, p) && FirstOfName(xml.roots, p)
    requires forall i | 0 <= i < |p| :: Segment(NamesAlong(xml.roots, p)[i])
    requires forall i | 0 <= i < |extra| :: Segment(extra[i])
    requires extra == [] || NodeAt(xml.roots, p).children == []
    ensures Lookup(xml, Some(Join(NamesAlong(xml.roots, p) + extra))) == Some(NodeAt(xml.roots, p))
  {
    var segs := NamesAlong(xml.roots, p) + extra;
    forall i | 0 <= i < |segs| ensures Segment(segs[i]) {
      if i < |p| { assert segs[i] == NamesAlong(xml.roots, p)[i]; } else { assert segs[i] == extra[i - |p|]; }
    }
    SegmentsOfJoin(segs);
    NamesAlongSplit(xml.roots, p, extra);
    LookupFirst(xml, Join(segs), p[0]);
    DescendAlong(xml.roots[p[0]], p[1..], extra);
  }

  /** The names along a position start with the root's name. */
  lemma NamesAlongSplit(roots: seq<Node>, p: seq<nat>, extra: seq<string>)
    requires |p| > 0 && ValidPos(roots, p)
    ensures (NamesAlong(roots, p) + extra)[0] == roots[p[0]].name
    ensures (NamesAlong(roots, p) + extra)[1..] == NamesAlong(roots[p[0]].children, p[1..]) + extra
  {
  }

  /** A lookup whose first token names the root `i` first continues below
      that root. */
  lemma LookupFirst(xml: Xml, path: string, i: nat)
    requires |Segments(path)| > 0 && FirstNamed(xml.roots, Segments(path)[0]) == Some(i)
    requires i < |xml.roots|
    ensures Lookup(xml, Some(path)) == Descend(xml.roots[i], Segments(path)[1..])
  {
  }

  /** In a consistent list every node's path is its parent's path followed by
      the names down to it, joined with slashes. */
  lemma {:induction false} PathIsJoin(pp: Option<string>, cs: seq<Node>, p: seq<nat>)
    requires LevelOk(pp, cs) && ValidPos(cs, p) && |p| > 0
    ensures NodeAt(cs, p).path == PathUnder(pp, Join(NamesAlong(cs, p)))
    decreases |p|
  {
    var c := cs[p[0]];
    if |p| > 1 {
      PathIsJoin(Some(c.path), c.children, p[1..]);
      var rest := NamesAlong(c.children, p[1..]);
      assert NamesAlong(cs, p) == [c.name] + rest;
      assert Join(NamesAlong(cs, p)) == c.name + "/" + Join(rest);
    }
  }

  /** A node's materialised path finds it, when every name on the way is a
      token and the first of its name among its siblings. */
  lemma PathFindsNode(xml: Xml, p: seq<nat>)
    requires PathsOk(xml.roots) && |p| > 0 && ValidPos(xml.roots, p) && FirstOfName(xml.roots, p)
    requires forall i | 0 <= i < |p| :: Segment(NamesAlong(xml.roots, p)[i])
    ensures Lookup(xml, Some(NodeAt(xml.roots, p).path)) == Some(NodeAt(xml.roots, p))
  {
    PathIsJoin(None, xml.roots, p);
    assert NamesAlong(xml.roots, p) + [] == NamesAlong(xml.roots, p);
    LookupAlong(xml, p, []);
  }

  /** A path whose first token names no root is NULL; on a new context every
      lookup is NULL. */
  lemma MissingRoot(xml: Xml, path: string)
    requires |Segments(path)| > 0
    requires forall i | 0 <= i < |xml.roots| :: xml.roots[i].name != Segments(path)[0]
    ensures Lookup(xml, Some(path)).None?
    ensures Lookup(CreateContext(), Some(path)).None?
  {
  }
}
