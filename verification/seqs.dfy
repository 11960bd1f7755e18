/** Sequence vocabulary shared by the merge engine and the step parser:
    distinctness, first/last occurrence, and the two ordered collections the
    merge collects into (an insertion-ordered set and an insertion-ordered map). */
module Seqs {

  /** No element occurs twice. */
  predicate Distinct<T(==)>(s: seq<T>) {
    forall i, j :: 0 <= i < j < |s| ==> s[i] != s[j]
  }

  /** Position of the first occurrence of `x` in `s`. */
  function FirstIndex<T(==)>(s: seq<T>, x: T): (r: nat)
    requires x in s
    ensures r < |s| && s[r] == x
    ensures x !in s[..r]
  {
    if s[0] == x then 0
    else
      var r' := FirstIndex(s[1..], x);
      assert s[..r' + 1] == [s[0]] + s[1..][..r'];
      r' + 1
  }

  /** Position of the last occurrence of `x` in `s`. */
  function LastIndex<T(==)>(s: seq<T>, x: T): (r: nat)
    requires x in s
    ensures r < |s| && s[r] == x
    ensures x !in s[r + 1..]
  {
    if s[|s| - 1] == x then |s| - 1
    else
      var r' := LastIndex(s[..|s| - 1], x);
      assert s[r' + 1..] == s[..|s| - 1][r' + 1..] + [s[|s| - 1]];
      r'
  }

  /** The first occurrence of an element of a prefix does not move when the
      sequence is extended. */
  lemma {:induction false} FirstIndexExtend<T>(s: seq<T>, t: seq<T>, x: T)
    requires x in s
    ensures x in s + t && FirstIndex(s + t, x) == FirstIndex(s, x)
  {
    assert (s + t)[FirstIndex(s, x)] == x;
  }

  /** The elements of `s` in order of first appearance, each once: the order an
      insertion-ordered set (`IndexSet`) holds after collecting `s`, where
      inserting an element already present changes nothing. */
  function Dedup<T(==,!new)>(s: seq<T>): (r: seq<T>)
    ensures forall x :: x in r <==> x in s
    ensures Distinct(r)
    ensures forall i, j :: 0 <= i < j < |r| ==> FirstIndex(s, r[i]) < FirstIndex(s, r[j])
  {
    if |s| == 0 then []
    else
      var init := s[..|s| - 1];
      var x := s[|s| - 1];
      assert s == init + [x];
      var d := Dedup(init);
      forall y | y in init
        ensures FirstIndex(s, y) == FirstIndex(init, y) < |init|
      {
        FirstIndexExtend(init, [x], y);
      }
      if x in d then d
      else
        assert FirstIndex(s, x) == |init|;
        d + [x]
  }

  /** The keys of an association list. */
  function Keys<K, V>(ps: seq<(K, V)>): (ks: seq<K>)
    ensures |ks| == |ps|
    ensures forall i :: 0 <= i < |ps| ==> ks[i] == ps[i].0
  {
    seq(|ps|, i requires 0 <= i < |ps| => ps[i].0)
  }

  /** Insertion into an insertion-ordered map (`IndexMap::insert`): a new key
      goes to the end; an existing key keeps its position and takes the new value. */
  function Upsert<K(==), V>(m: seq<(K, V)>, k: K, v: V): (r: seq<(K, V)>)
    requires Distinct(Keys(m))
    ensures k in Keys(m) ==> Keys(r) == Keys(m)
    ensures k !in Keys(m) ==> Keys(r) == Keys(m) + [k]
    ensures forall i :: 0 <= i < |r| && r[i].0 == k ==> r[i].1 == v
    ensures forall i :: 0 <= i < |r| && r[i].0 != k ==> i < |m| && r[i] == m[i]
  {
    if |m| == 0 then [(k, v)]
    else if m[0].0 == k then [(k, v)] + m[1..]
    else
      var tail := m[1..];
      assert Keys(m) == [m[0].0] + Keys(tail);
      assert Distinct(Keys(tail)) by {
        forall i, j | 0 <= i < j < |tail|
          ensures Keys(tail)[i] != Keys(tail)[j]
        {
          assert Keys(tail)[i] == Keys(m)[i + 1] && Keys(tail)[j] == Keys(m)[j + 1];
        }
      }
      var r' := Upsert(tail, k, v);
      var r := [m[0]] + r';
      assert Keys(r) == [m[0].0] + Keys(r');
      forall i | 0 <= i < |r| && r[i].0 != k
        ensures i < |m| && r[i] == m[i]
      {
        if i > 0 {
          assert r[i] == r'[i - 1];
        }
      }
      r
  }

  /** No occurrence lies after the last one. */
  lemma LastIndexIsLast<T>(s: seq<T>, x: T, q: nat)
    requires q < |s| && s[q] == x
    ensures q <= LastIndex(s, x)
  {
  }

  /** In a list of pairs whose tags never decrease, the last pair with a
      given key carries the largest tag among that key's pairs. */
  lemma LastPairTag<K>(pairs: seq<(K, nat)>, key: K, q: nat)
    requires forall i, j :: 0 <= i < j < |pairs| ==> pairs[i].1 <= pairs[j].1
    requires q < |pairs| && pairs[q].0 == key
    ensures key in Keys(pairs) && pairs[q].1 <= pairs[LastIndex(Keys(pairs), key)].1
  {
    assert Keys(pairs)[q] == key;
    LastIndexIsLast(Keys(pairs), key, q);
  }

  /** Appending a different element does not move the last occurrence. */
  lemma LastIndexSnoc<T>(s: seq<T>, x: T, y: T)
    requires x in s && x != y
    ensures x in s + [y] && LastIndex(s + [y], x) == LastIndex(s, x)
  {
    assert (s + [y])[..|s|] == s;
  }

  /** Collecting key/value pairs into an insertion-ordered map: keys in order
      of first appearance, each bound to the value of its LAST pair. */
  function CollectMap<K(==,!new), V>(ps: seq<(K, V)>): (r: seq<(K, V)>)
    ensures Keys(r) == Dedup(Keys(ps))
    ensures forall i :: 0 <= i < |r| ==> r[i].0 in Keys(ps)
    ensures forall i :: 0 <= i < |r| ==> r[i] == ps[LastIndex(Keys(ps), r[i].0)]
  {
    if |ps| == 0 then []
    else
      var init := ps[..|ps| - 1];
      var (k, v) := ps[|ps| - 1];
      assert Keys(ps) == Keys(init) + [k];
      var m := CollectMap(init);
      var r := Upsert(m, k, v);
      forall i | 0 <= i < |r|
        ensures r[i] == ps[LastIndex(Keys(ps), r[i].0)]
      {
        if r[i].0 != k {
          assert Keys(m)[i] == r[i].0;
          LastIndexSnoc(Keys(init), r[i].0, k);
        }
      }
      r
  }

  /** Concatenation of a sequence of sequences, in order. */
  function Flatten<T(!new)>(ss: seq<seq<T>>): (r: seq<T>)
    ensures forall x :: x in r <==> exists i :: 0 <= i < |ss| && x in ss[i]
  {
    if |ss| == 0 then []
    else
      var init := ss[..|ss| - 1];
      var r := Flatten(init) + ss[|ss| - 1];
      assert forall i :: 0 <= i < |init| ==> init[i] == ss[i];
      r
  }
}
