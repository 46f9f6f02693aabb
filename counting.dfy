/** Vote counting over the debounce window: the frequency table the detector
    builds from its queue, the order in which that table lists its labels, and
    the head of its "most common first" listing. Generic over the label type,
    so a richer gesture vocabulary needs no change here. */
module Counting {

  /** How often x occurs in s: the frequency table is the multiset of s. */
  function Count<T(==)>(s: seq<T>, x: T): (c: nat)
    ensures c <= |s|
    ensures c > 0 <==> x in s
  {
    multiset(s)[x]
  }

  /** The position of the oldest occurrence of x in s. */
  function FirstIndex<T(==)>(s: seq<T>, x: T): (i: nat)
    requires x in s
    ensures i < |s| && s[i] == x
    ensures forall j :: 0 <= j < i ==> s[j] != x
  {
    if s[0] == x then 0 else 1 + FirstIndex(s[1..], x)
  }

  /** Extending a sequence at the back does not move the oldest occurrence of
      a value it already held. */
  lemma FirstIndexExtend<T>(p: seq<T>, s: seq<T>, x: T)
    requires x in p
    requires p <= s
    ensures x in s && FirstIndex(s, x) == FirstIndex(p, x)
  {
    var i := FirstIndex(p, x);
    assert s[i] == x;
    var k := FirstIndex(s, x);
    assert k <= i;
    assert p[k] == x;
  }

  /** The labels of the frequency table in its iteration order. The table is
      filled by walking s from oldest to newest and adds a label when it first
      meets it. */
  function Keys<T(==)>(s: seq<T>): (ks: seq<T>)
    ensures s != [] ==> ks != []
  {
    if s == [] then []
    else
      var ks := Keys(s[..|s| - 1]);
      if s[|s| - 1] in ks then ks else ks + [s[|s| - 1]]
  }

  /** Every key occurs in s, and every element of s is a key. */
  lemma {:induction false} KeysMembers<T>(s: seq<T>)
    ensures forall i :: 0 <= i < |Keys(s)| ==> Keys(s)[i] in s
    ensures forall x :: x in s ==> x in Keys(s)
  {
    if s != [] {
      var p := s[..|s| - 1];
      assert s == p + [s[|s| - 1]];
      KeysMembers(p);
    }
  }

  /** The keys are ordered by the position of their oldest occurrence in s,
      which also makes them pairwise distinct. */
  lemma {:induction false} KeysOrdered<T>(s: seq<T>, i: nat, j: nat)
    requires i < j < |Keys(s)|
    ensures Keys(s)[i] in s && Keys(s)[j] in s
    ensures FirstIndex(s, Keys(s)[i]) < FirstIndex(s, Keys(s)[j])
  {
    KeysMembers(s);
    var p := s[..|s| - 1];
    var last := s[|s| - 1];
    var ks := Keys(p);
    assert s == p + [last];
    KeysMembers(p);
    assert Keys(s)[i] == ks[i];
    FirstIndexExtend(p, s, ks[i]);
    if j < |ks| {
      assert Keys(s)[j] == ks[j];
      FirstIndexExtend(p, s, ks[j]);
      KeysOrdered(p, i, j);
    } else {
      assert Keys(s)[j] == last && last !in p;
      assert FirstIndex(s, last) == |p|;
    }
  }

  /** The keys are pairwise distinct: each label is counted under one entry. */
  lemma KeysDistinct<T>(s: seq<T>, i: nat, j: nat)
    requires i < j < |Keys(s)|
    ensures Keys(s)[i] != Keys(s)[j]
  {
    KeysOrdered(s, i, j);
  }

  /** The position of the head of a stable sort of keys by descending count:
      the first key whose count is maximal. */
  function FirstMaxIndex<T(==)>(keys: seq<T>, s: seq<T>): (i: nat)
    requires keys != []
    ensures i < |keys|
    ensures forall j :: 0 <= j < |keys| ==> Count(s, keys[j]) <= Count(s, keys[i])
    ensures forall j :: 0 <= j < i ==> Count(s, keys[j]) < Count(s, keys[i])
  {
    if |keys| == 1 then 0
    else
      var k := FirstMaxIndex(keys[1..], s) + 1;
      if Count(s, keys[k]) > Count(s, keys[0]) then k else 0
  }

  /** The first entry of the "most common first" listing of the frequency
      table of s: a label and its count. */
  function MostCommon<T(==)>(s: seq<T>): (r: (T, nat))
    requires s != []
    ensures r.1 == Count(s, r.0)
  {
    var ks := Keys(s);
    var i := FirstMaxIndex(ks, s);
    (ks[i], Count(s, ks[i]))
  }

  /** The independent definition of the winning label: it occurs in s, no
      label occurs more often, and of the labels that occur as often it is the
      one met first when scanning from oldest to newest. */
  ghost predicate IsMode<T>(s: seq<T>, m: T)
  {
    m in s &&
    (forall i :: 0 <= i < |s| ==> Count(s, s[i]) <= Count(s, m)) &&
    (forall i :: 0 <= i < |s| && Count(s, s[i]) == Count(s, m) ==> FirstIndex(s, m) <= FirstIndex(s, s[i]))
  }

  /** The head of the listing is the mode, ties going to the oldest label. */
  lemma MostCommonIsMode<T>(s: seq<T>)
    requires s != []
    ensures IsMode(s, MostCommon(s).0)
  {
    var ks := Keys(s);
    KeysMembers(s);
    assert s[0] in ks;
    var i := FirstMaxIndex(ks, s);
    var m := ks[i];
    assert MostCommon(s).0 == m;
    forall k | 0 <= k < |s|
      ensures Count(s, s[k]) <= Count(s, m)
      ensures Count(s, s[k]) == Count(s, m) ==> FirstIndex(s, m) <= FirstIndex(s, s[k])
    {
      assert s[k] in ks;
      var j :| 0 <= j < |ks| && ks[j] == s[k];
      KeyAtLeast(ks, s, i, j);
    }
  }

  /** The step of the proof above for one key at position j. */
  lemma KeyAtLeast<T>(ks: seq<T>, s: seq<T>, i: nat, j: nat)
    requires ks == Keys(s) && ks != [] && i == FirstMaxIndex(ks, s) && j < |ks|
    ensures ks[i] in s && ks[j] in s
    ensures Count(s, ks[j]) <= Count(s, ks[i])
    ensures Count(s, ks[j]) == Count(s, ks[i]) ==> FirstIndex(s, ks[i]) <= FirstIndex(s, ks[j])
  {
    KeysMembers(s);
    if Count(s, ks[j]) == Count(s, ks[i]) && j != i {
      assert i < j;
      KeysOrdered(s, i, j);
    }
  }

  /** At most one label is the mode, so the tie-break leaves no choice. */
  lemma ModeUnique<T>(s: seq<T>, a: T, b: T)
    requires IsMode(s, a) && IsMode(s, b)
    ensures a == b
  {
    var i := FirstIndex(s, a);
    var j := FirstIndex(s, b);
    assert i <= j && j <= i;
  }

  /** Whatever label the independent definition picks, the listing's head
      agrees with it. */
  lemma MostCommonIsTheMode<T>(s: seq<T>, m: T)
    requires IsMode(s, m)
    ensures s != [] && MostCommon(s) == (m, Count(s, m))
  {
    MostCommonIsMode(s);
    ModeUnique(s, m, MostCommon(s).0);
  }
}
