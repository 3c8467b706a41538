# TinyXML in Dafny

A model of the core of xant's TinyXML C library. The library has two layers:

- **A doubly linked list** (`linklist.c`). It has an entry API (push, pop, shift, unshift, pick and fetch of entries), a value API on top of it, and a tagged-value API.
- **An XML engine** (`txml.c`). It keeps a context: a list of root nodes, a parse cursor and the text of the `<?...?>` head. Its nodes carry a name, a materialised slash-separated path, a value, a kind (simple, comment or CDATA), attributes and children.

The engine's operations modelled here are:

- building and editing the tree: create, add child or root, add, remove and clear attributes, set value;
- reading it: count, indexed get, get by name, get by path (`XmlGetNode`);
- parsing a buffer (`XmlParseBuffer` and its four handlers);
- writing a context back out (`XmlDumpBranch`, `XmlDump`).

Module layout:

- `list_spec.dfy` (`ListSpec`): the 1-based positional list operations as edits of a sequence. Where the C code and its evident intent differ, both are given.
- `linklist.dfy` (`LinkList`): the heap list itself.
  - The entry and list records are classes.
  - A ghost sequence of entries ties the `prev`/`next`/`head`/`tail`/`length` fields to the sequence of values.
  - The head's `prev` and the tail's `next` may point outside the list (`Beyond`). The code leaves them so when an entry that was popped or shifted off a list is linked into an empty one, and a later pop or shift writes through them.
  - Every operation is proved to perform its `ListSpec` edit.
  - The tagged-value API is included.
- `xml_tree.dfy` (`XmlTree`): the tree as a value.
  - The node's `parent` pointer is not stored. The cursor is the position of the current node: a sequence of child indices, with the empty sequence standing for a NULL cursor.
  - It holds the accessors, the error codes and node kinds of `txml.h`, and the tree invariants: paths agree with names, and growth.
- `xml_path.dfy` (`XmlPath`): the strtok tokenisation of a path and `XmlGetNode`, with a reference lookup.
- `xml_scan.dfy` (`XmlScan`): the pointer walks of the parser: blank skipping, scanning to a stop character, `strstr`, the attribute loop and the markup alternatives after a `<`.
- `xml_parse.dfy` (`XmlParse`):
  - the start, end, value and extra-node handlers;
  - one pass of the main loop (`Step`/`Dispatch`);
  - the whole loop (`Run`) and the imperative `ParseBuffer`;
  - proofs that the context stays consistent and only grows.
- `xml_dump.dfy` (`XmlDump`): `XmlDumpBranch` and `XmlDump`.
- `xml_scan_facts.dfy`, `xml_roundtrip.dfy` (`XmlScanFacts`, `XmlRoundTrip`): the scanner reads back each piece the dumper writes. `ParseOfDump` shows that parsing the dump of a context on a new context yields its head and roots again.
- `xml_examples.dfy` (`XmlExamples`): the parser and dumper on literal inputs: closed tags, attributes, a stray end tag, a bad `<![` section, a comment, text around tags, and the attribute spacing of the dump.

Where the library's own description and the code disagree, the model follows the code:

- Position 0 is not "not found": `PickValue(list, 0)` returns the head.
- The number of roots is not limited.
- `XmlDumpBranch` never writes the self-closing `<name/>` form, because a node's value is never NULL.
- Values and attributes are neither escaped nor unescaped.
- `XmlGetNode` has no `[N]` or `[@attr='v']` selectors. A node without children ends the walk and is returned whatever tokens remain.
- `XmlStartHandler` never refuses a second root.

## Model

| member | source | states |
|---|---|---|
| ListSpec.Fetch | linklist.c:326-334 | Fetch as documented: a value is taken exactly when 1 <= pos <= length. Putting the taken value back at pos gives the original list. Otherwise nothing changes. |
| ListSpec.Subst | linklist.c:535-553 | SubstValue as meant: the old value at pos is returned and the new one is in its place, with the length and every other position unchanged. Outside 1..length nothing happens. |
| ListSpec.FetchAgreesAtEnds | linklist.c:326-334 | At position 1, at position length and past the end, the code's FetchEntry equals the intended Fetch. |
| ListSpec.FetchInteriorLosesValue | linklist.c:326-334 | At an interior position the code removes the same value the intended Fetch removes, but hands back nothing. |
| ListSpec.FetchInteriorExample | linklist.c:326-334 | Fetching position 2 of [10, 20, 30] leaves [10, 30] and returns NULL, where 20 is meant. |
| ListSpec.SubstAgreesAtFront | linklist.c:392-401 | At position 1, past the end, or on an empty list, the code's SubstEntry is the intended substitution. |
| ListSpec.SubstLastDropsValue | linklist.c:392-401 | At the last position of a list of two or more, the code returns the old value but leaves the list one shorter, without the new value. |
| LinkList.LinkedList.Init | linklist.c:28-37 | An initialised list is well linked and empty. |
| LinkList.LinkedList.Length | linklist.c:80-91 | The stored length is the number of linked entries and of values. |
| LinkList.LinkedList.ChainFromBothEnds | linklist.h:34-50 | Walking `next` from the head meets the entries in order, the `length`-th being the tail, and the next step lands where the tail's `next` points. Walking `prev` from the tail meets them in reverse and then lands where the head's `prev` points. |
| LinkList.LinkedList.PushEntry | linklist.c:176-201 | A NULL entry is refused with 0 and changes nothing. Otherwise 1 is returned and the entry is appended after all existing entries, in order, with the list still well linked. Into an empty list the entry keeps its own `prev` and `next`; after a tail its `next` is NULL and no new outside neighbour appears. |
| LinkList.LinkedList.UnshiftEntry | linklist.c:234-258 | The same as PushEntry at the front: the entry comes before all existing ones; into an empty list it keeps its own links, before a head its `prev` is NULL. |
| LinkList.LinkedList.PopEntry | linklist.c:150-171 | On an empty list: NULL, no change. Otherwise the last entry is unlinked and returned with its value, and the rest keep their order. The returned entry keeps its `prev`, whose `next` becomes NULL even when it lies outside the list. No new outside neighbour appears. |
| LinkList.LinkedList.ShiftEntry | linklist.c:207-228 | On an empty list: NULL, no change. Otherwise the first entry is unlinked and returned, and the rest keep their order. The returned entry keeps its `next`, whose `prev` becomes NULL even when it lies outside the list. |
| LinkList.LinkedList.PickEntry | linklist.c:295-319 | The backward walk (second half) and the forward walk both reach the pos-th entry. Past the end gives NULL; position 0 gives the head. |
| LinkList.LinkedList.FetchEntry | linklist.c:326-334 | At the ends and past the end, the list loses exactly the value Fetch takes, and that value is the one returned. |
| LinkList.LinkedList.PushValue | linklist.c:464-473 | The value is appended at the end and 1 is returned. The fresh entry brings no outside neighbour. |
| LinkList.LinkedList.UnshiftValue | linklist.c:475-484 | The value is put first and 1 is returned. The fresh entry brings no outside neighbour. |
| LinkList.LinkedList.PopValue | linklist.c:452-462 | Removes and returns the last value; NULL on an empty list. |
| LinkList.LinkedList.ShiftValue | linklist.c:486-496 | Removes and returns the first value; NULL on an empty list. |
| LinkList.LinkedList.PickValue | linklist.c:509-514 | The pos-th value, without change: NULL past the end, the head's value at position 0. |
| LinkList.LinkedList.FetchValue | linklist.c:516-527 | At the ends and past the end, the taken value and the remaining list are the intended Fetch. |
| LinkList.LinkedList.Clear | linklist.c:64-78 | Shifting until NULL leaves the list empty and well linked. |
| LinkList.MoveThenPopCutsList | linklist.c:150-186 | Push 1, 2, 3 onto a list, pop 3 and push it alone onto a second list, push 4 onto the first and pop the second: the first list still has length 3, but its chain from the head ends after two entries. |
| LinkList.GetEntryPosition | linklist.c:433-450 | 0 exactly when the entry is not linked in its list. Otherwise its 1-based position, the entry at that position being the entry itself. |
| LinkList.CreateTaggedValue | linklist.c:576-604 | The tag is kept. The value copy is a prefix of the given block: exactly vLen bytes, or for vLen 0 the bytes before the first NUL with vLen set to their count. A NULL value gives NULL and 0. |
| LinkList.PushTaggedValue | linklist.c:629-645 | A NULL TaggedValue is refused with 0. Otherwise it is appended in an entry marked tagged. |
| LinkList.UnshiftTaggedValue | linklist.c:647-663 | The same as PushTaggedValue at the front. |
| LinkList.GetTaggedValue | linklist.c:701-713 | The first value whose tag equals the key, or NULL exactly when no tag equals it. |
| LinkList.GetTaggedValues | linklist.c:722-739 | Pushes onto `values` the value of every entry tagged with the key, in list order, and returns their number. |
| XmlTree.KindCode | txml.h:55-57 | Each node kind has its own code: 0 exactly for simple, 1 exactly for comment, 2 exactly for CDATA. |
| XmlTree.CreateContext | txml.c:16-25 | A new context has no roots, a NULL cursor and no head. |
| XmlTree.CreateNode | txml.c:41-72 | NULL exactly for a NULL name. Otherwise a simple node without attributes or children, holding the given value or "" for NULL. Its path is the name for a root, and otherwise the parent's path, a `/` and the name. |
| XmlTree.SetNodeValue | txml.c:103-112 | A NULL value is BADARGS and changes nothing. Otherwise NOERR, and only the value changes. |
| XmlTree.AddChildNode | txml.c:122-133 | A NULL child is BADARGS and changes nothing. Otherwise NOERR, and the child becomes the last child with the earlier children unchanged. |
| XmlTree.AddRootNode | txml.c:135-144 | A NULL node is BADARGS. Otherwise the node becomes the last root, earlier roots unchanged, with cursor and head kept. |
| XmlTree.AddAttribute | txml.c:146-163 | A NULL node or name is BADARGS. Otherwise a name/value attribute (value "" for NULL) is appended after the existing ones, and nothing else changes. |
| XmlTree.GetAttribute | txml.c:192-195 | The index-th attribute, 1-based; NULL past the end. |
| XmlTree.GetChildNode | txml.c:879-884 | The index-th child, 1-based; NULL past the end or for a NULL node. |
| XmlTree.GetBranch | txml.c:973-978 | The index-th root, 1-based; NULL past the end. |
| XmlTree.RemoveAttribute | txml.c:165-175 | NOERR exactly when the index is in range. Then the removed attribute is the index-th one, and putting it back restores the list. Otherwise GENERIC_ERR and no change. |
| XmlTree.ClearAttributes | txml.c:177-190 | Removing from the last index down leaves a node with 0 attributes and everything else unchanged. |
| XmlTree.GetChildNodeByName | txml.c:887-902 | NULL exactly when no child has the name. Otherwise the first child with it. |
| XmlTree.SubstBranch | txml.c:980-986 | NOERR exactly for an index in range; then only that root is replaced, by the new branch. Otherwise LINKLIST_ERR and no change. |
| XmlTree.AppendsAreVisible | txml.c:852-865 | After adding a child, root or attribute, its count grows by one, the last index reads the new item, and every earlier index reads what it did before. |
| XmlTree.SetThenGetValue | txml.c:103-120 | A value that is set is the value XmlGetNodeValue returns, and nothing else changes. |
| XmlTree.SubstThenGetBranch | txml.c:973-986 | After substituting branch 1, XmlGetBranch(1) returns the new branch and the count is unchanged. |
| XmlTree.ParentPos | txml.c:285-295 | The parent of a node at a valid position is itself at a valid position, so moving the cursor to the parent never leaves the tree. |
| XmlTree.PathAt | txml.c:54-66 | In a consistent forest, a node's path is its parent's path, a `/` and its name, or just its name for a root. |
| XmlPath.Segments | txml.c:917-968 | The strtok tokens of a path are non-empty, free of `/`, and no more numerous than its characters. |
| XmlPath.SegmentsOfJoin | txml.c:924-967 | Cutting the slash-joined tokens gives the tokens back. |
| XmlPath.LeadingSlashIgnored | txml.c:918-920 | A leading slash does not change the tokens. |
| XmlPath.GetNode | txml.c:904-971 | The loops return what the reference lookup returns: the first root with the first name, then the first child with each following name, stopping at a node without children. NULL for a NULL path or a path without tokens, and any result comes from a root bearing the first token. |
| XmlPath.DescendAlong | txml.c:943-970 | Walking the names of a first-of-name position ends on the node there, and tokens left after a childless node are ignored. |
| XmlPath.LookupAlong | txml.c:904-971 | The slash-joined names along a first-of-name position find the node there. |
| XmlPath.PathIsJoin | txml.c:54-66 | A node's materialised path is the names from its root down, joined by `/`. |
| XmlPath.PathFindsNode | txml.c:904-971 | XmlGetNode on a node's own path returns that node when each name on the way is the first of its name among its siblings. |
| XmlPath.MissingRoot | txml.c:931-941 | A path whose first token names no root is NULL, and on a new context every path is NULL. |
| XmlScan.SkipBlanks | txml.c:352-354 | The walk stops on the first character that is not a blank, or on the NUL, having passed only blanks. |
| XmlScan.ScanTo | txml.c:562 | The walk stops on the first stop character or on the NUL, having passed none. |
| XmlScan.Find | txml.c:423 | strstr: the first occurrence at or after the start, or NULL exactly when there is none. |
| XmlScan.AttributeStep | txml.c:499-534 | One pass of the attribute loop consumes at least one character and stays in the buffer. |
| XmlScan.ScanAttributes | txml.c:498-539 | The attribute loop stops on a `>` or the NUL and only adds attributes. A `/>` seen marks the tag closed. |
| XmlScan.ScanOpen | txml.c:478-539 | A start tag yields a name, attributes and the index of its `>` (or the NUL), unless the input ends first. |
| XmlScan.ScanMarkup | txml.c:366-539 | Every markup alternative after `<` resumes strictly later (a start tag at its `>`). A comment or CDATA never has the simple kind. |
| XmlParse.AppendUnderCursor | txml.c:261-278 | The node is appended as the last child of the cursor node, or as the last root for a NULL cursor. It becomes reachable at the next index, the cursor and head are kept, and the forest only grows. |
| XmlParse.AppendKeepsPaths | txml.c:240-278 | A node built by XmlCreateNode under the cursor keeps every path consistent when appended there. |
| XmlParse.AddAttributes | txml.c:248-260 | Adding the attributes one by one appends them all, in source order. |
| XmlParse.StartHandler | txml.c:228-283 | An empty name is BADARGS with no change. Otherwise a node with the name, the attributes in order, an empty value and the path under the cursor is appended below the cursor, and the cursor moves onto it. |
| XmlParse.EndHandler | txml.c:285-295 | A NULL cursor is GENERIC_ERR. Otherwise the cursor moves to the parent, whatever the name, the tree is unchanged, and the node left is a child of the new cursor. |
| XmlParse.TrimEnd | txml.c:303-309 | The backward loop passes only blanks and stops on a non-blank or on the first character. |
| XmlParse.Trim | txml.c:297-309 | The trimmed text starts and ends with a non-blank, and the text is blanks, then it, then blanks. |
| XmlParse.TrimBlankPadded | txml.c:300-309 | Trimming a value padded with blanks gives the value back. |
| XmlParse.ValueHandler | txml.c:297-321 | NOERR. The trimmed text becomes the value of the cursor node, and nothing else changes. With a NULL cursor the text is dropped. |
| XmlParse.FakeName | txml.c:203 | Comments are named `_fakenode_1_` and CDATA nodes `_fakenode_2_`. |
| XmlParse.ExtraNodeHandler | txml.c:197-226 | A node of the given kind, holding the content verbatim and with a fake name, is appended below the cursor, and the cursor does not move. |
| XmlParse.Step | txml.c:364-579 | A pass that does not end the parse moves strictly forward and leaves the cursor on a node or NULL. |
| XmlParse.DispatchKeeps | txml.c:366-578 | Every pass keeps the context consistent and only grows the forest. |
| XmlParse.RunKeeps | txml.c:364-583 | The main loop ends with a consistent context that extends the one it started from. |
| XmlParse.StartKeepsConsistent | txml.c:540-553 | A start tag keeps the context consistent with the cursor on the new node. A closed start tag returns the cursor to where it was. |
| XmlParse.ValueKeepsPaths | txml.c:559-574 | Capturing a value keeps the context consistent. |
| XmlParse.ParseBuffer | txml.c:324-583 | Any context with a valid cursor is accepted, and the loop returns the outcome of the pass-by-pass main loop. When the context's paths were consistent, a finished parse leaves them consistent and the context has only grown. |
| XmlDump.Tabs | txml.c:677-678 | The indentation at depth d is d tab characters. |
| XmlScanFacts.ReadClose | txml.c:368-388 | An end tag is read as its name, resuming after its `>`. |
| XmlScanFacts.ReadComment | txml.c:419-435 | A comment is read as its text verbatim, resuming after `-->`. |
| XmlScanFacts.ReadCData | txml.c:436-463 | A CDATA section is read as its text verbatim, resuming after `]]>`. |
| XmlScanFacts.ReadHead | txml.c:469-477 | A `<?...?>` is read as its text, resuming after `?>`. |
| XmlScanFacts.ReadOneAttribute | txml.c:499-534 | One pass of the attribute loop reads a dumped `name="value"` back. |
| XmlScanFacts.ReadAttributes | txml.c:498-539 | The attribute loop reads a dumped attribute list back in order and stops on its `>`. |
| XmlScanFacts.ReadOpen | txml.c:478-539 | A dumped start tag is read as its name and attributes, not closed, stopping on its `>`. |
| XmlRoundTrip.FocusConsistent | txml.c:279 | Making a node built under the cursor the new cursor keeps the context consistent, and the cursor's path is the node's. |
| XmlRoundTrip.SpecialRoundTrip | txml.c:650-667 | A dumped comment or CDATA line is read back as the same node, appended below the cursor. |
| XmlRoundTrip.OpenRoundTrip | txml.c:677-698 | A dumped start tag is read back: the node, without value and children, is appended and becomes the cursor. |
| XmlRoundTrip.TextRoundTrip | txml.c:728-739 | A dumped value between blanks, met in state START, becomes the cursor node's value. |
| XmlRoundTrip.CloseRoundTrip | txml.c:722-724 | A dumped end tag hands the node being read back to its parent. |
| XmlRoundTrip.LeafRoundTrip | txml.c:717-741 | A dumped simple node without children is read back as itself. |
| XmlRoundTrip.ParentRoundTrip | txml.c:699-742 | A dumped simple node with children is read back as itself, value and children included. |
| XmlRoundTrip.NodeRoundTrip | txml.c:627-751 | Any dumpable branch, at any depth and in any state, is read back as itself, appended below the cursor. |
| XmlRoundTrip.ChildrenRoundTrip | txml.c:704-715 | A list of dumped branches is read back as the same nodes, in order. |
| XmlRoundTrip.DumpPieces | txml.c:761-763 | The dump starts with the head line `<?head?>` and a newline, followed by the roots. |
| XmlRoundTrip.HeadRun | txml.c:469-477 | The head line is read back into the context's head. |
| XmlRoundTrip.ParseOfDump | txml.c:753-776 | Parsing the dump of a context on a new context succeeds with the same roots, a NULL cursor and the head (the default one when there was none). |
| XmlExamples.ClosedTagAddsLeaf | txml.c:546-553 | A closed start tag adds a leaf below the cursor and leaves the cursor where it was. |
| XmlExamples.CloseWithoutCursorFails | txml.c:384-387 | An end tag with a NULL cursor ends the parse with GENERIC_ERR. |
| XmlExamples.BadSectionScan | txml.c:436-468 | `<![` followed by anything but CDATA is a parser error. |
| XmlExamples.BrokenFails | txml.c:464-467 | A parser error ends the parse with PARSER_GENERIC_ERR (-4). |
| XmlExamples.TextSkipped | txml.c:575-578 | Text met outside state START is passed over one character at a time. |
| XmlExamples.ParseClosedTag | txml.c:490-493 | `<a/>` parses to one root `a` with no value, attributes or children, and a NULL cursor. |
| XmlExamples.ParseClosedTagWithAttribute | txml.c:535-538 | `<a k="v"/>` parses to one closed root `a` holding the attribute. |
| XmlExamples.ParseStrayEndTag | txml.c:285-295 | `</x>` on a new context fails with GENERIC_ERR. |
| XmlExamples.ParseBadSection | txml.c:464-467 | `<![X]>` fails with PARSER_GENERIC_ERR. |
| XmlExamples.ParseCommentDoc | txml.c:419-435 | In `<a><!--c--></a>` the comment becomes a `_fakenode_1_` child of `a`, and the end tag still closes `a`. |
| XmlExamples.ParseTextDoc | txml.c:559-574 | In `x<a> hi </a>` the leading `x` is ignored and `a` gets the trimmed value `hi`. |
| XmlExamples.TrimExample | txml.c:297-309 | Trimming `hi ` gives `hi`. |
| XmlExamples.BranchExample | txml.c:681-698 | Two attributes are written with two spaces between them, and an empty leaf gets an explicit end tag. |
| XmlExamples.DumpWithoutHead | txml.c:761-763 | Without a head, the dump starts with `<?xml version="1.0"?>`. |
| XmlExamples.DumpExample | txml.c:753-776 | The full dump of a one-root context without a head. |

## Left out

- File loading, saving and locking (`XmlParseFile`, `XmlSave`, the lock helpers at txml.c:586-626, 778-851, 996-1089): these are I/O.
- Memory and resources:
  - Memory management (`DestroyList`, `DestroyEntry`, `XmlDestroyNode`, `XmlDestroyContext`, `DestroyTaggedValue`, the frees in the parser) is not modelled: allocation never fails and freeing is a no-op.
  - `XML_MEMORY_ERR` is therefore never produced.
  - The `THREADED` mutexes are not modelled.
- List operations:
  - `RemoveEntry`, `MoveEntry`/`MoveValue`, `SwapEntries`/`SwapValues`, and `InsertEntry`/`InsertValue`/`InsertTaggedValue` at interior positions are left out. Only their effect inside `FetchEntry` and `SubstEntry` is modelled, on sequences in `ListSpec`.
  - `ForEachListValue` calls a function pointer, so it is left out.
  - `PopTaggedValue`, `ShiftTaggedValue`, `PickTaggedValue` and `FetchTaggedValue` are only casts of the value API.
- Tree operations:
  - `XmlRemoveNode` and `XmlRemoveBranch` are unimplemented stubs returning GENERIC_ERR.
  - `XmlGetNodeValue` and the count functions are one-line accessors, covered by `XmlTree.AppendsAreVisible` and `XmlTree.SetThenGetValue`.
- Pointer structure:
  - Nodes are values, so a node cannot be shared by two lists or mutated through an alias.
  - XmlTree.SubstBranch takes a node, not a pointer, so `XmlSubstBranch(xml, i, NULL)` is not modelled. The code (txml.c:980-986) passes NULL unchecked to `SubstValue`, which stores it as a NULL root.
  - The `parent` pointer is the cursor position minus its last index.
  - The `XmlCreateNode` branch for a parent without a path (txml.c:59-63) cannot occur, because every modelled node has a path.
- Integer widths: positions, lengths and counters are unbounded naturals. Lists longer than INT_MAX or UINT_MAX entries would make the code's counters overflow; the model does not represent that. The counters are:
  - `int` against `unsigned long` lengths in `PickEntry` (linklist.c:297-312) and `GetEntryPosition` (linklist.c:435);
  - `int` against `(int)ListLength(list)` in `GetTaggedValue` (linklist.c:703-705) and `GetTaggedValues` (linklist.c:724-728), which also returns its `int` counter as `unsigned long`;
  - `unsigned int` in `XmlGetChildNodeByName` (txml.c:891-895).
- Parser undefined behaviour: reading through a NULL `strstr` result, or past the NUL after a start tag, is the outcome `Undefined(at)`, and the model does not say what the C code would do there. This includes `<!ENTITY`, which matches only at the very end, because the code compares 8 bytes.
- XmlDump.DumpBranch and XmlDump.Dump: these carry no contract of their own. Their properties are the round trip (`XmlRoundTrip.ParseOfDump`) and the literal examples. The round trip is stated for dumpable nodes only: tag names without blanks, `>` or a trailing `/`; attributes without `"`, `=` or blanks; values without `<` and without surrounding blanks; comments and CDATA without an early terminator. Outside these the dump is not escaped and does not read back.
- LinkList.LinkedList.FetchEntry: requires a position at either end or past the end. At an interior position the code unlinks the entry and returns NULL; that path is modelled only on sequences, by `ListSpec.FetchInteriorLosesValue`. Position 0 on a non-empty list unlinks the head without moving `head`, which corrupts the list.
- LinkList.LinkedList.FetchValue: the same position restriction as FetchEntry.
- LinkList.LinkedList.PushEntry: requires an entry that is not linked in any list (its `list` is NULL). The code does not check this, and pushing a linked entry corrupts both lists. An unlinked entry with stale `prev`/`next`, as PopEntry and ShiftEntry leave it, is accepted and modelled.
- LinkList.LinkedList.UnshiftEntry: the same requirement as PushEntry.
- LinkList.GetEntryPosition: for an entry that points to a list it is not linked in (InitList leaves entries so), requires that list's tail to have a NULL `next`. Otherwise the code's walk goes past the tail into entries of other lists and may never end.
- LinkList.GetTaggedValue: requires every tag compared before the match to be non-NULL, since `strcmp` on NULL is undefined.
- LinkList.GetTaggedValues: requires every tag to be non-NULL, for the same reason.
- XmlTree.RemoveAttribute: restricted to the first index, the last index, or past the end. These are the positions where `FetchValue` behaves as documented; at an interior index the code removes the attribute and still returns GENERIC_ERR.
- XmlTree.SubstBranch: restricted to index 1, past the end, or an empty root list. At the last index of two or more roots the code drops the new branch (see Findings).
- XmlParse.ValueHandler: requires text with a non-blank character. The main loop only passes such text, and on all-blank text the C code reads before the start of the string.
- XmlParse.ParseBuffer: the buffer is the text before its terminating NUL, so it contains no NUL.

## Findings

| source | as written | input that shows it | evidently intended | confidence | as-written member | corrected member |
|---|---|---|---|---|---|---|
| linklist.c:326-334 | `FetchEntry` at an interior position unlinks the entry with `RemoveEntry`. That call returns the entry, so the test `== 0` fails and NULL is returned: the value is removed but lost. | `FetchValue` on [10, 20, 30] at position 2 | Return the removed entry, so the caller gets the value 20. | not executed | ListSpec.FetchInteriorExample | ListSpec.Fetch |
| linklist.c:392-401 | `SubstEntry` pops the last entry, then calls `InsertEntry` at the same position of the now shorter list. `PickEntry` finds nothing there, so the new entry is never linked, yet the old one is returned as if the substitution succeeded. | `SubstValue` on [1, 2] at position 2 with 9 | The list becomes [1, 9] and 2 is returned. | not executed | ListSpec.SubstLastDropsValue | ListSpec.Subst |
