/**
  The lexical layer of XmlParseBuffer (txml.c). The buffer is the text before
  its terminating NUL; `At` reads the NUL at index |buf|. Every scan below is
  one of the pointer walks of the C code, and each returns the index where the
  walk stops.

  The C macro SKIP_BLANKS leaves the enclosing loop when it reaches the NUL.
  Inside the markup scanner this ends the main loop, which is the `Halt`
  outcome; inside the attribute loop it only ends that loop.
*/
module XmlScan {
  import opened Wrappers
  import opened XmlTree

  /** The characters SKIP_BLANKS and the value trimming skip. */
  const Blanks: set<char> := {' ', '\t', '\r', '\n'}

  /** The character at `i`, reading the terminating NUL at |buf|. */
  function At(buf: string, i: nat): char
  {
    if i < |buf| then buf[i] else '\0'
  }

  /** `pat` occurs in `buf` at index `k` (strncmp(buf + k, pat, |pat|) == 0). */
  predicate StartsAt(buf: string, k: nat, pat: string)
  {
    k + |pat| <= |buf| && buf[k..k + |pat|] == pat
  }

  /** The character at `i` is a blank. */
  predicate BlankAt(buf: string, i: nat)
  {
    i < |buf| && buf[i] in Blanks
  }

  /** SKIP_BLANKS: the end of the run of blanks starting at `p`. */
  function SkipBlanks(buf: string, p: nat): (q: nat)
    requires p <= |buf|
    ensures p <= q <= |buf|
    ensures forall i | p <= i < q :: BlankAt(buf, i)
    ensures At(buf, q) !in Blanks
    decreases |buf| - p
  {
    if p < |buf| && buf[p] in Blanks then SkipBlanks(buf, p + 1) else p
  }

  /** A walk that stops at the first character in `stops` or at the NUL. */
  function ScanTo(buf: string, p: nat, stops: set<char>): (q: nat)
    requires p <= |buf|
    ensures p <= q <= |buf|
    ensures forall i | p <= i < q :: buf[i] !in stops
    ensures q < |buf| ==> buf[q] in stops
    decreases |buf| - p
  {
    if p < |buf| && buf[p] !in stops then ScanTo(buf, p + 1, stops) else p
  }

  /** strstr(buf + from, pat): the first occurrence of `pat` at or after `from`. */
  function Find(buf: string, from: nat, pat: string): (r: Option<nat>)
    requires from <= |buf|
    ensures r.Some? ==> from <= r.value && StartsAt(buf, r.value, pat)
    ensures r.Some? ==> forall k | from <= k < r.value :: !StartsAt(buf, k, pat)
    ensures r.None? ==> forall k | from <= k <= |buf| :: !StartsAt(buf, k, pat)
    decreases |buf| - from
  {
    if StartsAt(buf, from, pat) then Some(from)
    else if from == |buf| then None
    else Find(buf, from + 1, pat)
  }

  /** The attribute loop's progress: the attributes collected so far, whether
      a `/>` has been seen, and where the walk stands. */
  datatype AttrScan = AttrScan(attrs: seq<Attribute>, unique: bool, at: nat)

  /** One pass of the attribute loop, started on a character that is neither
      `>` nor the NUL, up to (not including) the `/>` test. The name runs from
      `p` up to the `=`, blanks before the `=` included; after the `=` and any
      blanks a value opened by `"` or `'` runs to the same quote. A value that
      is not quoted, or a name not followed by `=`, yields no attribute. */
  function AttributeStep(buf: string, p: nat): (r: (Option<Attribute>, nat))
    requires p < |buf| && buf[p] != '>'
    ensures p < r.1 <= |buf|
  {
    var q := SkipBlanks(buf, ScanTo(buf, p, {'='} + Blanks));
    if q == |buf| || buf[q] != '=' then
      assert q > p by { if buf[p] !in {'='} + Blanks { assert ScanTo(buf, p, {'='} + Blanks) > p; } }
      (None, q)
    else
      var v := SkipBlanks(buf, q + 1);
      if v < |buf| && (buf[v] == '"' || buf[v] == '\'') then
        var e := ScanTo(buf, v + 1, {buf[v]});
        if e < |buf| then (Some(Attribute(buf[p..q], buf[v + 1..e])), SkipBlanks(buf, e + 1))
        else (None, e)
      else (None, v)
  }

  /** The attribute loop `while(*p != '>' && *p != 0)`, with its `/>` test. It
      stops on the `>` or the NUL. */
  function ScanAttributes(buf: string, p: nat, acc: seq<Attribute>, unique: bool): (r: AttrScan)
    requires p <= |buf|
    ensures p <= r.at <= |buf| && At(buf, r.at) in {'>', '\0'}
    ensures |r.attrs| >= |acc| && r.attrs[..|acc|] == acc
    ensures unique ==> r.unique
    decreases |buf| - p
  {
    if p == |buf| || buf[p] == '>' then AttrScan(acc, unique, p)
    else
      var step := AttributeStep(buf, p);
      var acc' := if step.0.Some? then acc + [step.0.value] else acc;
      var q := step.1;
      if At(buf, q) == '/' && At(buf, q + 1) == '>' then ScanAttributes(buf, q + 1, acc', true)
      else ScanAttributes(buf, q, acc', unique)
  }

  /** What follows a `<`. `Halt` is the input ending where SKIP_BLANKS breaks
      out of the main loop (or, after `</`, before any `>`); `Broken` is
      XML_PARSER_GENERIC_ERR; `Unterminated` is a path on which the C code reads
      through a NULL strstr result or past the terminating NUL. For `Open`,
      `at` is the index of the closing `>` or of the NUL. */
  datatype Markup =
    | Close(name: string, next: nat)
    | Skipped(next: nat)
    | Special(kind: NodeKind, content: string, next: nat)
    | Head(text: string, next: nat)
    | Open(name: string, attrs: seq<Attribute>, unique: bool, at: nat)
    | Halt
    | Broken
    | Unterminated

  /** The index at which the main loop resumes after the markup (a start tag
      resumes one past its `>`). */
  predicate ResumesAfter(m: Markup, p: nat, len: nat)
  {
    match m
    case Close(_, next) => p < next <= len
    case Skipped(next) => p < next <= len
    case Special(_, _, next) => p < next <= len
    case Head(_, next) => p < next <= len
    case Open(_, _, _, at) => p <= at <= len
    case _ => true
  }

  /** A start tag, scanned from just after its `<`. A name ending in `/`
      directly before the `>` marks the tag as closed (`<a/>`). */
  function ScanOpen(buf: string, p: nat): (m: Markup)
    requires 1 <= p <= |buf| && buf[p - 1] == '<'
    ensures m.Open? || m.Halt?
    ensures m.Open? ==> p <= m.at <= |buf| && At(buf, m.at) in {'>', '\0'}
  {
    var m := SkipBlanks(buf, p);
    if m == |buf| then Halt
    else
      var e := ScanTo(buf, m, {'>'} + Blanks);
      if e == |buf| then Halt
      else
        var closed := buf[e] == '>' && buf[e - 1] == '/';
        assert buf[m - 1] != '/' by {
          if m > p { assert BlankAt(buf, m - 1); }
        }
        var name := if closed then buf[m..e - 1] else buf[m..e];
        var a := SkipBlanks(buf, e);
        if a == |buf| then Halt
        else
          var s := ScanAttributes(buf, a, [], closed);
          Open(name, s.attrs, s.unique, s.at)
  }

  /** Everything that can follow a `<`, scanned from the index after it, in
      the order the C code tests the alternatives. `!ENTITY` is compared over
      eight bytes, its NUL included, so it matches only at the very end of the
      input, where the skip of eight characters leaves the buffer. */
  function ScanMarkup(buf: string, p: nat): (m: Markup)
    requires 1 <= p <= |buf| && buf[p - 1] == '<'
    ensures ResumesAfter(m, p, |buf|)
    ensures m.Open? ==> At(buf, m.at) in {'>', '\0'}
    ensures m.Special? ==> m.kind != Simple
  {
    if At(buf, p) == '/' then
      var m := SkipBlanks(buf, p + 1);
      if m == |buf| then Halt
      else
        var e := ScanTo(buf, m, {'>'});
        if e == |buf| then Halt else Close(buf[m..e], e + 1)
    else if StartsAt(buf, p, "!ENTITY") && p + 7 == |buf| then Unterminated
    else if StartsAt(buf, p, "!NOTATION") then
      match Find(buf, p + 9, ">")
      case None => Broken
      case Some(k) => Skipped(k + 1)
    else if StartsAt(buf, p, "!ATTLIST") then
      match Find(buf, p + 8, ">")
      case None => Broken
      case Some(k) => Skipped(k + 1)
    else if StartsAt(buf, p, "!--") then
      match Find(buf, p + 3, "-->")
      case None => Unterminated
      case Some(k) => Special(Comment, buf[p + 3..k], k + 3)
    else if StartsAt(buf, p, "![") then
      var m := SkipBlanks(buf, p + 2);
      if m == |buf| then Halt
      else if !StartsAt(buf, m, "CDATA") then Broken
      else
        var n := SkipBlanks(buf, m + 5);
        if n == |buf| then Halt
        else if buf[n] != '[' then Broken
        else
          match Find(buf, n + 1, "]]>")
          case None => Unterminated
          case Some(k) => Special(CData, buf[n + 1..k], k + 3)
    else if At(buf, p) == '?' then
      match Find(buf, p + 1, "?>")
      case None => Unterminated
      case Some(k) => Head(buf[p + 1..k], k + 2)
    else ScanOpen(buf, p)
  }
}
