/**
  The value semantics of the positional list of linklist.c, stated on plain
  sequences. Positions are 1-based, as in the C API. The heap list of
  linklist.dfy is proved to perform exactly these edits on its ghost contents,
  and the XML tree (whose child, attribute and root lists are such lists) uses
  them directly.

  Two operations are given twice: once as the code is written and once as it
  is evidently meant. The lemmas at the end show where the two differ and that
  they agree everywhere the rest of the model calls them.
*/
module ListSpec {
  import opened Wrappers

  /** What a removing operation hands back, and the list it leaves behind. */
  datatype Removal<V> = Removal(taken: Option<V>, rest: seq<V>)

  /** The positions at which FetchEntry behaves as documented: the two ends and
      anything past the end. Position 0 qualifies only on an empty list. */
  predicate AtEnds(len: nat, pos: nat)
  {
    pos == 1 || pos == len || pos > len
  }

  /** PickEntry/PickValue. A position past the end is NULL; position 0 is not
      rejected: the forward walk starts at the head and takes no step. */
  function Pick<V>(s: seq<V>, pos: nat): (r: Option<V>)
  {
    if pos > |s| || |s| == 0 then None
    else if pos == 0 then Some(s[0])
    else Some(s[pos - 1])
  }

  /** FetchEntry as written. At the ends it is ShiftEntry or PopEntry. In the
      interior RemoveEntry unlinks the entry and returns it, so the test
      `RemoveEntry(...) == 0` fails and NULL is returned: the value is lost.
      Position 0 on a non-empty list unlinks the head without moving `head`,
      which corrupts the list; it is outside the domain. */
  function FetchAsWritten<V>(s: seq<V>, pos: nat): (r: Removal<V>)
    requires pos == 0 ==> |s| == 0
  {
    if pos == 1 then
      (if |s| == 0 then Removal(None, s) else Removal(Some(s[0]), s[1..]))
    else if pos == |s| then
      (if |s| == 0 then Removal(None, s) else Removal(Some(s[|s| - 1]), s[..|s| - 1]))
    else if pos > |s| then Removal(None, s)
    else Removal(None, s[..pos - 1] + s[pos..])
  }

  /** FetchEntry as its comment describes it: remove the pos-th value and
      return it; any other position leaves the list alone. */
  function Fetch<V>(s: seq<V>, pos: nat): (r: Removal<V>)
    ensures r.taken.Some? <==> 1 <= pos <= |s|
    ensures r.taken.None? ==> r.rest == s
    ensures r.taken.Some? ==>
              |r.rest| + 1 == |s| && r.rest[..pos - 1] + [r.taken.value] + r.rest[pos - 1..] == s
  {
    if 1 <= pos <= |s| then
      var rest := s[..pos - 1] + s[pos..];
      assert rest[..pos - 1] == s[..pos - 1] && rest[pos - 1..] == s[pos..];
      Removal(Some(s[pos - 1]), rest)
    else Removal(None, s)
  }

  /** InsertEntry at the positions where it is well defined: position 1 is
      UnshiftEntry, position `length` is PushEntry (so the value lands AFTER the
      last one), and past the end PickEntry finds nothing and 0 is returned. */
  function InsertAsWritten<V>(s: seq<V>, v: V, pos: nat): (r: (bool, seq<V>))
    requires AtEnds(|s|, pos)
  {
    if pos == 1 then (true, [v] + s)
    else if pos == |s| then (true, s + [v])
    else (false, s)
  }

  /** SubstEntry/SubstValue as written: fetch the old entry, then insert the
      new one at the same position of the shortened list. */
  function SubstAsWritten<V>(s: seq<V>, pos: nat, v: V): (r: Removal<V>)
    requires pos == 0 ==> |s| == 0
  {
    var f := FetchAsWritten(s, pos);
    if f.taken.None? then f
    else Removal(f.taken, InsertAsWritten(f.rest, v, pos).1)
  }

  /** SubstValue as meant: the value at pos is replaced and the old one returned. */
  function Subst<V>(s: seq<V>, pos: nat, v: V): (r: Removal<V>)
    ensures r.taken.Some? <==> 1 <= pos <= |s|
    ensures r.taken.None? ==> r.rest == s
    ensures r.taken.Some? ==>
              r.taken.value == s[pos - 1] && |r.rest| == |s| && r.rest[pos - 1] == v
              && forall i | 0 <= i < |s| && i != pos - 1 :: r.rest[i] == s[i]
  {
    if 1 <= pos <= |s| then Removal(Some(s[pos - 1]), s[pos - 1 := v]) else Removal(None, s)
  }

  /** Wherever FetchEntry is documented to work, the code does what is meant. */
  lemma FetchAgreesAtEnds<V>(s: seq<V>, pos: nat)
    requires AtEnds(|s|, pos) && (pos == 0 ==> |s| == 0)
    ensures FetchAsWritten(s, pos) == Fetch(s, pos)
  {
    if pos == |s| && |s| > 0 && pos != 1 {
      assert s[..|s| - 1] + s[|s|..] == s[..|s| - 1];
    }
  }

  /** The as-written FetchEntry on an interior position removes the value but
      returns nothing, so a caller such as FetchValue cannot free or use it. */
  lemma FetchInteriorLosesValue<V>(s: seq<V>, pos: nat)
    requires 1 < pos < |s|
    ensures FetchAsWritten(s, pos).taken.None?
    ensures FetchAsWritten(s, pos).rest == Fetch(s, pos).rest
    ensures |FetchAsWritten(s, pos).rest| == |s| - 1
    ensures Fetch(s, pos).taken == Some(s[pos - 1])
  {
  }

  /** A concrete instance: fetching position 2 of [10, 20, 30]. */
  lemma FetchInteriorExample()
    ensures FetchAsWritten([10, 20, 30], 2) == Removal(None, [10, 30])
    ensures Fetch([10, 20, 30], 2) == Removal(Some(20), [10, 30])
  {
    assert [10, 20, 30][..1] + [10, 20, 30][2..] == [10, 30];
  }

  /** At position 1, past the end, or on an empty list the code's SubstValue
      is the intended substitution. */
  lemma SubstAgreesAtFront<V>(s: seq<V>, pos: nat, v: V)
    requires pos == 1 || pos > |s| || |s| == 0
    ensures SubstAsWritten(s, pos, v) == Subst(s, pos, v)
  {
    if pos == 1 && |s| > 0 {
      assert [v] + s[1..] == s[0 := v];
    }
  }

  /** At the last position of a list of two or more, the as-written SubstValue
      pops the old value and then fails to insert the new one: the list
      shrinks, although the old value is returned as if all went well. */
  lemma SubstLastDropsValue<V>(s: seq<V>, v: V)
    requires |s| >= 2
    ensures SubstAsWritten(s, |s|, v) == Removal(Some(s[|s| - 1]), s[..|s| - 1])
    ensures Subst(s, |s|, v) == Removal(Some(s[|s| - 1]), s[..|s| - 1] + [v])
  {
    assert s[|s| - 1 := v] == s[..|s| - 1] + [v];
  }
}
