/**
  The doubly linked list of linklist.c/linklist.h: a head/tail/length record
  over entries that point to their neighbours and back to their list.

  The ghost sequence `nodes` lists the entries from head to tail and
  `contents` their values; `Valid` ties the pointer structure to them. Every
  operation is specified as an edit of `contents` (see ListSpec for the
  positional ones). Allocation never fails in the model; freeing is a no-op.
*/
module LinkList {
  import opened Wrappers
  import ListSpec

  /** ListEntry: the links, the value and the `tagged` flag. */
  class Entry<V> {
    var list: LinkedList?<V>
    var prev: Entry?<V>
    var next: Entry?<V>
    var value: V
    var tagged: bool

    /** CreateEntry (calloc) followed by SetEntryValue. */
    constructor (v: V)
      ensures list == null && prev == null && next == null
      ensures value == v && !tagged
    {
      list := null;
      prev := null;
      next := null;
      value := v;
      tagged := false;
    }
  }

  /** LinkedList: head, tail and length. */
  class LinkedList<V> {
    var head: Entry?<V>
    var tail: Entry?<V>
    var length: nat
    ghost var nodes: seq<Entry<V>>
    ghost var contents: seq<V>
    ghost var Repr: set<object>

    /** The entries reachable from `head` are exactly `nodes`, in order:
        `prev`/`next` are mutual inverses along the chain, both ends are NULL
        when the list is empty, `length` counts the entries and each entry
        points back to this list. `head.prev` and `tail.next` are not
        constrained: the code can leave them pointing outside (see Beyond). */
    ghost predicate Valid()
      reads this, Repr
    {
      && this in Repr
      && (forall i | 0 <= i < |nodes| :: nodes[i] in Repr)
      && length == |nodes| == |contents|
      && (forall i, j | 0 <= i < j < |nodes| :: nodes[i] != nodes[j])
      && (if |nodes| == 0 then head == null && tail == null
          else head == nodes[0] && tail == nodes[|nodes| - 1])
      && (forall i | 0 <= i < |nodes| :: nodes[i].list == this && nodes[i].value == contents[i])
      && (forall i {:trigger nodes[i].prev} | 0 < i < |nodes| :: nodes[i].prev == nodes[i - 1])
      && (forall i {:trigger nodes[i].next} | 0 <= i < |nodes| - 1 :: nodes[i].next == nodes[i + 1])
    }

    /** The entries the two ends point to: the `prev` of the head and the
        `next` of the tail. Empty for a list built from fresh entries; an
        entry popped or shifted off another list and then linked into an
        empty one keeps its old neighbours, which end up here. */
    ghost function Beyond(): set<Entry<V>>
      reads this, head, tail
    {
      (if head == null || head.prev == null then {} else {head.prev})
      + (if tail == null || tail.next == null then {} else {tail.next})
    }

    /** CreateList: a fresh, initialised, empty list. */
    constructor ()
      ensures Valid() && fresh(Repr)
      ensures contents == [] && Beyond() == {}
    {
      head := null;
      tail := null;
      length := 0;
      nodes := [];
      contents := [];
      Repr := {this};
    }

    /** InitList: zero the record. Entries that were linked are forgotten
        (they still point here; the C code leaks them in the same way). */
    method Init()
      modifies this
      ensures Valid() && contents == [] && Repr == {this} && Beyond() == {}
    {
      head := null;
      tail := null;
      length := 0;
      nodes := [];
      contents := [];
      Repr := {this};
    }

    /** ListLength. */
    function Length(): (n: nat)
      reads this, Repr
      requires Valid()
      ensures n == |contents| == |nodes|
    {
      length
    }

    /** The entry reached from `e` after k steps along `next`. */
    ghost function Forward(e: Entry?<V>, k: nat): Entry?<V>
      reads this, Repr
      decreases k
    {
      if k == 0 || e == null || e !in Repr then e else Forward(e.next, k - 1)
    }

    /** The entry reached from `e` after k steps along `prev`. */
    ghost function Backward(e: Entry?<V>, k: nat): Entry?<V>
      reads this, Repr
      decreases k
    {
      if k == 0 || e == null || e !in Repr then e else Backward(e.prev, k - 1)
    }

    /** Walking `length` steps along `next` from `head` meets the entries in
        order, the last of them being `tail`, and then arrives where the
        tail's `next` points (NULL unless a stale link was kept); walking back
        from `tail` along `prev` meets the same entries in reverse order. */
    lemma {:induction false} ChainFromBothEnds()
      requires Valid()
      ensures forall k | 0 <= k < length :: Forward(head, k) == nodes[k]
      ensures Forward(head, length) == (if length == 0 then null else tail.next)
      ensures length > 0 ==> Forward(head, length - 1) == tail
      ensures forall k | 0 <= k < length :: Backward(tail, k) == nodes[length - 1 - k]
      ensures Backward(tail, length) == (if length == 0 then null else head.prev)
    {
      var k := 0;
      while k < length
        invariant 0 <= k <= length
        invariant forall j | 0 <= j < k :: Forward(head, j) == nodes[j]
        invariant Forward(head, k) == (if k < length then nodes[k] else if length == 0 then null else tail.next)
        invariant forall j | 0 <= j < k :: Backward(tail, j) == nodes[length - 1 - j]
        invariant Backward(tail, k) == (if k < length then nodes[length - 1 - k] else if length == 0 then null else head.prev)
      {
        ForwardStep(head, k);
        BackwardStep(tail, k);
        k := k + 1;
      }
    }

    lemma {:induction false} ForwardStep(e: Entry?<V>, k: nat)
      ensures Forward(e, k + 1) == (var f := Forward(e, k); if f == null || f !in Repr then f else f.next)
      decreases k
    {
      if k > 0 && e != null && e in Repr {
        ForwardStep(e.next, k - 1);
      }
    }

    lemma {:induction false} BackwardStep(e: Entry?<V>, k: nat)
      ensures Backward(e, k + 1) == (var f := Backward(e, k); if f == null || f !in Repr then f else f.prev)
      decreases k
    {
      if k > 0 && e != null && e in Repr {
        BackwardStep(e.prev, k - 1);
      }
    }

    /** PushEntry: link `e` after the tail. A NULL entry is refused with 0.
        The entry must not be linked anywhere. On an empty list only `head`
        and `tail` are set: the entry keeps whatever `prev` and `next` it
        had, so a popped or shifted entry brings its old neighbours along. */
    method PushEntry(e: Entry?<V>) returns (ok: bool)
      requires Valid()
      requires e != null ==> e.list == null
      modifies Repr, if e == null then {} else {e}
      ensures Valid()
      ensures ok <==> e != null
      ensures e == null ==> contents == old(contents) && nodes == old(nodes) && Repr == old(Repr)
      ensures e != null ==> && nodes == old(nodes) + [e]
                            && contents == old(contents) + [old(e.value)]
                            && Repr == old(Repr) + {e} && e.tagged == old(e.tagged)
      ensures e != null && old(|nodes|) == 0 ==> e.prev == old(e.prev) && e.next == old(e.next)
      ensures e != null && old(|nodes|) > 0 ==> e.next == null && Beyond() <= old(Beyond())
    {
      if e == null {
        return false;
      }
      if length == 0 {
        head := e;
        tail := e;
      } else {
        var p := tail;
        p.next := e;
        e.prev := p;
        e.next := null;
        tail := e;
      }
      length := length + 1;
      e.list := this;
      nodes := nodes + [e];
      contents := contents + [e.value];
      Repr := Repr + {e};
      ok := true;
    }

    /** UnshiftEntry: link `e` before the head; as with PushEntry, an entry
        linked into an empty list keeps its own `prev` and `next`. */
    method UnshiftEntry(e: Entry?<V>) returns (ok: bool)
      requires Valid()
      requires e != null ==> e.list == null
      modifies Repr, if e == null then {} else {e}
      ensures Valid()
      ensures ok <==> e != null
      ensures e == null ==> contents == old(contents) && nodes == old(nodes) && Repr == old(Repr)
      ensures e != null ==> && nodes == [e] + old(nodes)
                            && contents == [old(e.value)] + old(contents)
                            && Repr == old(Repr) + {e} && e.tagged == old(e.tagged)
      ensures e != null && old(|nodes|) == 0 ==> e.prev == old(e.prev) && e.next == old(e.next)
      ensures e != null && old(|nodes|) > 0 ==> e.prev == null && Beyond() <= old(Beyond())
    {
      if e == null {
        return false;
      }
      if length == 0 {
        head := e;
        tail := e;
      } else {
        var p := head;
        p.prev := e;
        e.prev := null;
        e.next := p;
        head := e;
      }
      length := length + 1;
      e.list := this;
      nodes := [e] + nodes;
      contents := [e.value] + contents;
      Repr := Repr + {e};
      ok := true;
    }

    /** PopEntry: unlink the tail and return it (NULL on an empty list, which
        is left unchanged). The returned entry no longer points to the list
        but keeps its `prev`. The entry before the tail gets a NULL `next`;
        for a lone entry that is whatever its `prev` still points to, possibly
        an entry of another list. */
    method PopEntry() returns (e: Entry?<V>)
      requires Valid()
      modifies Repr, Beyond()
      ensures Valid()
      ensures old(|nodes|) == 0 ==> e == null && contents == old(contents) && Repr == old(Repr)
      ensures old(|nodes|) > 0 ==> && e == old(nodes[|nodes| - 1])
                                   && e.list == null && e.value == old(contents[|contents| - 1])
                                   && nodes == old(nodes[..|nodes| - 1])
                                   && contents == old(contents[..|contents| - 1])
                                   && Repr == old(Repr) - {e}
      ensures old(|nodes|) > 0 ==> e.prev == old(e.prev) && (e.prev != null ==> e.prev.next == null)
      ensures old(|nodes|) > 1 ==> e.next == old(e.next)
      ensures length == 0 ==> head == null && tail == null
      ensures Beyond() <= old(Beyond())
    {
      e := tail;
      if e != null {
        tail := e.prev;
        if tail != null {
          tail.next := null;
        }
        length := length - 1;
        e.list := null;
        nodes := nodes[..|nodes| - 1];
        contents := contents[..|contents| - 1];
        Repr := Repr - {e};
      }
      if length == 0 {
        head := null;
        tail := null;
      }
    }

    /** ShiftEntry: unlink the head and return it (NULL on an empty list).
        The returned entry keeps its `next`, whose `prev` is set to NULL; for
        a lone entry that may be an entry of another list. */
    method ShiftEntry() returns (e: Entry?<V>)
      requires Valid()
      modifies Repr, Beyond()
      ensures Valid()
      ensures old(|nodes|) == 0 ==> e == null && contents == old(contents) && Repr == old(Repr)
      ensures old(|nodes|) > 0 ==> && e == old(nodes[0])
                                   && e.list == null && e.value == old(contents[0])
                                   && nodes == old(nodes[1..])
                                   && contents == old(contents[1..])
                                   && Repr == old(Repr) - {e}
      ensures old(|nodes|) > 0 ==> e.next == old(e.next) && (e.next != null ==> e.next.prev == null)
      ensures old(|nodes|) > 1 ==> e.prev == old(e.prev)
      ensures length == 0 ==> head == null && tail == null
      ensures Beyond() <= old(Beyond())
      ensures old(|nodes|) > 1 ==> tail == old(tail) && tail.next == old(tail.next)
    {
      e := head;
      if e != null {
        head := e.next;
        if head != null {
          head.prev := null;
        }
        length := length - 1;
        e.list := null;
        nodes := nodes[1..];
        contents := contents[1..];
        Repr := Repr - {e};
      }
      if length == 0 {
        head := null;
        tail := null;
      }
    }

    /** PickEntry: the pos-th entry, found by walking back from the tail when
        pos lies in the second half and forward from the head otherwise; both
        walks reach the same entry. Past the end the result is NULL, and
        position 0 yields the head. */
    method PickEntry(pos: nat) returns (e: Entry?<V>)
      requires Valid()
      ensures pos > |nodes| ==> e == null
      ensures 1 <= pos <= |nodes| ==> e == nodes[pos - 1]
      ensures pos == 0 ==> e == (if |nodes| == 0 then null else nodes[0])
    {
      if length < pos {
        return null;
      }
      if pos > length / 2 {
        e := tail;
        var i := length;
        while i > pos
          invariant pos <= i <= length
          invariant e == nodes[i - 1]
          decreases i
        {
          e := e.prev;
          i := i - 1;
        }
      } else {
        e := head;
        var i := 1;
        while i < pos
          invariant 1 <= i <= (if pos == 0 then 1 else pos)
          invariant e == (if |nodes| == 0 then null else nodes[i - 1])
          decreases pos - i
        {
          e := e.next;
          i := i + 1;
        }
      }
    }

    /** FetchEntry where it works as documented: position 1 is ShiftEntry,
        position `length` is PopEntry, and past the end nothing is removed.
        (Past the end the code also calls RemoveEntry, which finds no entry
        and does nothing.) */
    method FetchEntry(pos: nat) returns (e: Entry?<V>)
      requires Valid()
      requires ListSpec.AtEnds(length, pos)
      modifies Repr, Beyond()
      ensures Valid() && Repr <= old(Repr)
      ensures var f := ListSpec.Fetch(old(contents), pos);
              && (e == null <==> f.taken.None?)
              && (e != null ==> e.value == f.taken.value && e.list == null)
              && contents == f.rest
    {
      if pos == 1 {
        e := ShiftEntry();
        ListSpec.FetchAgreesAtEnds(old(contents), pos);
      } else if pos == length {
        e := PopEntry();
        ListSpec.FetchAgreesAtEnds(old(contents), pos);
      } else {
        e := PickEntry(pos);
      }
    }

    /** PushValue: wrap `v` in a new entry and link it after the tail. */
    method PushValue(v: V) returns (res: int)
      requires Valid()
      modifies Repr
      ensures Valid() && fresh(Repr - old(Repr))
      ensures res == 1
      ensures contents == old(contents) + [v]
      ensures Beyond() <= old(Beyond())
    {
      var e := new Entry(v);
      var ok := PushEntry(e);
      res := 1;
    }

    /** UnshiftValue: wrap `v` in a new entry and link it before the head. */
    method UnshiftValue(v: V) returns (res: int)
      requires Valid()
      modifies Repr
      ensures Valid() && fresh(Repr - old(Repr))
      ensures res == 1
      ensures contents == [v] + old(contents)
      ensures Beyond() <= old(Beyond())
    {
      var e := new Entry(v);
      var ok := UnshiftEntry(e);
      res := 1;
    }

    /** PopValue: remove and return the last value; NULL on an empty list. */
    method PopValue() returns (v: Option<V>)
      requires Valid()
      modifies Repr, Beyond()
      ensures Valid() && Repr <= old(Repr)
      ensures old(contents) == [] ==> v == None && contents == []
      ensures old(contents) != [] ==> && v == Some(old(contents)[|old(contents)| - 1])
                                      && contents == old(contents)[..|old(contents)| - 1]
    {
      var e := PopEntry();
      if e != null {
        v := Some(e.value);
      } else {
        v := None;
      }
    }

    /** ShiftValue: remove and return the first value; NULL on an empty list. */
    method ShiftValue() returns (v: Option<V>)
      requires Valid()
      modifies Repr, Beyond()
      ensures Valid() && Repr <= old(Repr)
      ensures old(contents) == [] ==> v == None && contents == []
      ensures old(contents) != [] ==> v == Some(old(contents)[0]) && contents == old(contents)[1..]
    {
      var e := ShiftEntry();
      if e != null {
        v := Some(e.value);
      } else {
        v := None;
      }
    }

    /** PickValue: the pos-th value, without changing the list. */
    method PickValue(pos: nat) returns (v: Option<V>)
      requires Valid()
      ensures 1 <= pos <= |contents| ==> v == Some(contents[pos - 1])
      ensures pos > |contents| ==> v == None
      ensures pos == 0 ==> v == (if |contents| == 0 then None else Some(contents[0]))
      ensures v == ListSpec.Pick(contents, pos)
    {
      var e := PickEntry(pos);
      if e != null {
        v := Some(e.value);
      } else {
        v := None;
      }
    }

    /** FetchValue at the ends: ShiftValue at position 1, PopValue at
        position `length`, NULL and no change past the end. */
    method FetchValue(pos: nat) returns (v: Option<V>)
      requires Valid()
      requires ListSpec.AtEnds(length, pos)
      modifies Repr, Beyond()
      ensures Valid() && Repr <= old(Repr)
      ensures var f := ListSpec.Fetch(old(contents), pos); v == f.taken && contents == f.rest
    {
      ghost var f := ListSpec.Fetch(contents, pos);
      var e := FetchEntry(pos);
      if e != null {
        v := Some(e.value);
      } else {
        v := None;
      }
      assert v == f.taken;
    }

    /** ClearList: shift entries off until the list is empty. */
    method Clear()
      requires Valid()
      modifies Repr, Beyond()
      ensures Valid() && contents == [] && Repr <= old(Repr)
    {
      var e := ShiftEntry();
      while e != null
        invariant Valid() && Repr <= old(Repr) && Beyond() <= old(Beyond())
        invariant e == null ==> contents == []
        decreases |contents| + (if e == null then 0 else 1)
      {
        e := ShiftEntry();
      }
    }
  }

  /** GetEntryPosition: the 1-based position of `e` in the list it points
      to, found by walking from the head until NULL; 0 when it is not linked.
      The walk only stops at the tail when the tail's `next` is NULL, which
      matters only for an entry that points to a list it is not linked in. */
  method GetEntryPosition<V>(e: Entry<V>) returns (pos: nat)
    requires e.list != null ==> e.list.Valid()
    requires e.list != null && e !in e.list.nodes ==> e.list.tail == null || e.list.tail.next == null
    ensures e.list == null ==> pos == 0
    ensures e.list != null ==> (pos == 0 <==> e !in e.list.nodes)
    ensures pos > 0 ==> e.list != null && pos <= |e.list.nodes| && e.list.nodes[pos - 1] == e
  {
    var list := e.list;
    if list == null {
      return 0;
    }
    var p := list.head;
    var i := 0;
    while p != null
      invariant 0 <= i <= |list.nodes|
      invariant p == (if i < |list.nodes| then list.nodes[i] else null)
      invariant e !in list.nodes[..i]
      decreases |list.nodes| - i
    {
      i := i + 1;
      if p == e {
        return i;
      }
      p := p.next;
    }
    return 0;
  }

  /** The list [1, 2] left by pushing 1, 2, 3 and popping 3, with the popped
      entry, which still points back to the entry of 2. */
  method PushThreePopOne() returns (first: LinkedList<int>, b: Entry<int>, c: Entry<int>)
    ensures first.Valid() && fresh(first.Repr) && fresh(c)
    ensures first.contents == [1, 2] && first.nodes[1] == b && c !in first.Repr
    ensures c.list == null && c.prev == b && c.next == null
  {
    first := new LinkedList<int>();
    var a := new Entry(1);
    b := new Entry(2);
    c := new Entry(3);
    var ok := first.PushEntry(a);
    ok := first.PushEntry(b);
    ok := first.PushEntry(c);
    assert first.nodes == [a, b, c];
    var moved := first.PopEntry();
    assert moved == c;
  }

  /** An entry popped off one list keeps its `prev`. Pushed alone into an
      empty second list and popped from there, it sets the `next` of its old
      neighbour to NULL: the first list [1, 2, 4], built by pushing 1, 2, 3,
      popping 3 and pushing 4, still has length 3, but its chain from the
      head ends after two entries. */
  method MoveThenPopCutsList() returns (first: LinkedList<int>)
    ensures first.length == 3 && first.head != null && first.head.next != null
    ensures first.head.next.next == null
  {
    var b, c;
    first, b, c := PushThreePopOne();
    var second := new LinkedList<int>();
    var ok := second.PushEntry(c);
    var d := new Entry(4);
    ok := first.PushEntry(d);
    assert first.head.next == b;
    var back := second.PopEntry();
  }

  /** A byte of a TaggedValue's value block. */
  newtype byte = x: int | 0 <= x < 256

  /** TaggedValue: a tag, a value block and `vLen`, the value's length in
      bytes. Either pointer may be NULL. */
  datatype TaggedValue = TaggedValue(tag: Option<string>, value: Option<seq<byte>>, vLen: nat)

  /** strlen on a byte block: the number of bytes before the first NUL. */
  function CStrLen(b: seq<byte>): (n: nat)
    requires 0 in b
    ensures n < |b| && b[n] == 0 && 0 !in b[..n]
  {
    if b[0] == 0 then 0
    else
      var n := 1 + CStrLen(b[1..]);
      assert b[..n] == [b[0]] + b[1..][..n - 1];
      n
  }

  /** CreateTaggedValue: copy the tag and the value. With vLen > 0 exactly
      vLen bytes are copied; with vLen == 0 the value is taken to be a
      NUL-terminated string and copied up to its terminator, whose length
      becomes vLen. A NULL value stays NULL with vLen 0. */
  function CreateTaggedValue(tag: Option<string>, val: Option<seq<byte>>, vLen: nat): (t: TaggedValue)
    requires val.Some? && vLen > 0 ==> vLen <= |val.value|
    requires val.Some? && vLen == 0 ==> 0 in val.value
    ensures t.tag == tag
    ensures val.None? ==> t.value == None && t.vLen == 0
    ensures val.Some? ==> t.value.Some? && t.vLen == |t.value.value| && t.value.value <= val.value
    ensures val.Some? && vLen > 0 ==> t.vLen == vLen
    ensures val.Some? && vLen == 0 ==> 0 !in t.value.value && val.value[t.vLen] == 0
  {
    if val.None? then TaggedValue(tag, None, 0)
    else if vLen > 0 then TaggedValue(tag, Some(val.value[..vLen]), vLen)
    else
      var n := CStrLen(val.value);
      TaggedValue(tag, Some(val.value[..n]), n)
  }

  /** PushTaggedValue: append `tVal` in an entry marked as tagged (so that
      ClearList frees it); a NULL TaggedValue is refused with 0. */
  method PushTaggedValue(list: LinkedList<TaggedValue>, tVal: Option<TaggedValue>) returns (res: int)
    requires list.Valid()
    modifies list.Repr
    ensures list.Valid() && fresh(list.Repr - old(list.Repr))
    ensures tVal.None? ==> res == 0 && list.contents == old(list.contents)
    ensures tVal.Some? ==> res == 1 && list.contents == old(list.contents) + [tVal.value]
    ensures tVal.Some? ==> list.nodes[|list.nodes| - 1].tagged
  {
    if tVal.None? {
      return 0;
    }
    var e := new Entry(tVal.value);
    e.tagged := true;
    var ok := list.PushEntry(e);
    res := 1;
  }

  /** UnshiftTaggedValue: as PushTaggedValue, at the front. */
  method UnshiftTaggedValue(list: LinkedList<TaggedValue>, tVal: Option<TaggedValue>) returns (res: int)
    requires list.Valid()
    modifies list.Repr
    ensures list.Valid() && fresh(list.Repr - old(list.Repr))
    ensures tVal.None? ==> res == 0 && list.contents == old(list.contents)
    ensures tVal.Some? ==> res == 1 && list.contents == [tVal.value] + old(list.contents)
    ensures tVal.Some? ==> list.nodes[0].tagged
  {
    if tVal.None? {
      return 0;
    }
    var e := new Entry(tVal.value);
    e.tagged := true;
    var ok := list.UnshiftEntry(e);
    res := 1;
  }

  /** The tags GetTaggedValue hands to strcmp before it finds `key`: each of
      them must be present (strcmp on a NULL tag is undefined). */
  predicate TagsComparable(s: seq<TaggedValue>, key: string)
  {
    |s| == 0 || (s[0].tag.Some? && (s[0].tag.value == key || TagsComparable(s[1..], key)))
  }

  /** The position of the first entry tagged `key`, if any. */
  function FirstTagged(s: seq<TaggedValue>, key: string): (r: Option<nat>)
    ensures r.None? ==> forall i | 0 <= i < |s| :: s[i].tag != Some(key)
    ensures r.Some? ==> r.value < |s| && s[r.value].tag == Some(key)
                        && forall j | 0 <= j < r.value :: s[j].tag != Some(key)
  {
    if |s| == 0 then None
    else if s[0].tag == Some(key) then Some(0)
    else match FirstTagged(s[1..], key)
      case None => None
      case Some(k) => Some(k + 1)
  }

  /** GetTaggedValue: the first value whose tag equals `key`, left in the
      list; NULL when no tag matches. */
  method GetTaggedValue(list: LinkedList<TaggedValue>, key: string) returns (r: Option<TaggedValue>)
    requires list.Valid()
    requires TagsComparable(list.contents, key)
    ensures r.None? <==> FirstTagged(list.contents, key).None?
    ensures r.Some? ==> r.value == list.contents[FirstTagged(list.contents, key).value]
  {
    ghost var s := list.contents;
    var i := 1;
    while i <= list.Length()
      invariant 1 <= i <= |s| + 1
      invariant forall j | 0 <= j < i - 1 :: s[j].tag != Some(key)
      invariant TagsComparable(s[i - 1..], key)
    {
      var t := list.PickValue(i);
      if t.value.tag.value == key {
        FirstTaggedIs(s, key, i - 1);
        return t;
      }
      assert s[i - 1..][1..] == s[i..];
      i := i + 1;
    }
    FirstTaggedNone(s, key);
    return None;
  }

  lemma FirstTaggedIs(s: seq<TaggedValue>, key: string, k: nat)
    requires k < |s| && s[k].tag == Some(key)
    requires forall j | 0 <= j < k :: s[j].tag != Some(key)
    ensures FirstTagged(s, key) == Some(k)
  {
  }

  lemma FirstTaggedNone(s: seq<TaggedValue>, key: string)
    requires forall j | 0 <= j < |s| :: s[j].tag != Some(key)
    ensures FirstTagged(s, key).None?
  {
  }

  /** The values of the entries tagged `key`, in list order. */
  function ValuesTagged(s: seq<TaggedValue>, key: string): seq<Option<seq<byte>>>
  {
    if |s| == 0 then []
    else ValuesTagged(s[..|s| - 1], key) + (if s[|s| - 1].tag == Some(key) then [s[|s| - 1].value] else [])
  }

  /** GetTaggedValues: push the value of every entry tagged `key`, in list
      order, onto `values`, and return how many there were. */
  method GetTaggedValues(list: LinkedList<TaggedValue>, key: string, values: LinkedList<Option<seq<byte>>>)
    returns (count: nat)
    requires list.Valid() && values.Valid() && list.Repr !! values.Repr
    requires forall i | 0 <= i < |list.contents| :: list.contents[i].tag.Some?
    modifies values.Repr
    ensures list.Valid() && values.Valid() && fresh(values.Repr - old(values.Repr))
    ensures values.contents == old(values.contents) + ValuesTagged(list.contents, key)
    ensures count == |ValuesTagged(list.contents, key)|
  {
    count := 0;
    var i := 1;
    while i <= list.Length()
      invariant 1 <= i <= |list.contents| + 1
      invariant list.Valid() && values.Valid() && list.Repr !! values.Repr
      invariant fresh(values.Repr - old(values.Repr))
      invariant values.contents == old(values.contents) + ValuesTagged(list.contents[..i - 1], key)
      invariant count == |ValuesTagged(list.contents[..i - 1], key)|
    {
      var t := list.PickValue(i);
      assert list.contents[..i][..i - 1] == list.contents[..i - 1];
      if t.value.tag.value == key {
        var res := values.PushValue(t.value.value);
        count := count + 1;
      }
      i := i + 1;
    }
    assert list.contents[..|list.contents|] == list.contents;
  }
}
