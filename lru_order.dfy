/**
 * Sequence operations behind the recency list `this.buffers` of
 * BufferManager (src/webgl/webgl1/BufferManager.js): the linear searches
 * over it and the `splice(i, 1)` + `push` that moves a buffer to the
 * most-recently-used end.
 */
module LruOrder {

  datatype Option<T> = None | Some(value: T)

  predicate Distinct<T(==)>(s: seq<T>)
  {
    forall i, j :: 0 <= i < j < |s| ==> s[i] != s[j]
  }

  /**
   * `s.splice(i, 1)` followed by `s.push(s[i])`: the list keeps its length
   * and `s[i]` ends last.
   */
  function MoveToBack<T>(s: seq<T>, i: nat): (r: seq<T>)
    requires i < |s|
    ensures |r| == |s| && r[|s| - 1] == s[i]
  {
    s[..i] + s[i + 1..] + [s[i]]
  }

  /** `s.shift()` followed by `s.push(s[0])` is the move of the front to the back. */
  lemma ShiftPush<T>(s: seq<T>)
    requires |s| > 0
    ensures s[1..] + [s[0]] == MoveToBack(s, 0)
  {
    assert s[..0] == [];
  }

  /** `s` with every occurrence of `x` taken out, the rest in order. */
  function Without<T(==)>(s: seq<T>, x: T): (r: seq<T>)
    ensures |r| <= |s| && x !in r
    ensures forall j :: 0 <= j < |r| ==> r[j] in s
  {
    if s == [] then [] else (if s[0] == x then [] else [s[0]]) + Without(s[1..], x)
  }

  /** Taking out an element that is not there changes nothing. */
  lemma {:induction false} WithoutAbsent<T>(s: seq<T>, x: T)
    requires x !in s
    ensures Without(s, x) == s
  {
    if s != [] {
      WithoutAbsent(s[1..], x);
      assert s == [s[0]] + s[1..];
    }
  }

  /** In a sequence without repetitions, taking out `s[i]` is removing position i. */
  lemma {:induction false} WithoutAt<T>(s: seq<T>, i: nat)
    requires Distinct(s) && i < |s|
    ensures Without(s, s[i]) == s[..i] + s[i + 1..]
  {
    if i == 0 {
      assert s[0] !in s[1..];
      WithoutAbsent(s[1..], s[0]);
    } else {
      var t := s[1..];
      assert s[0] != s[i] && t[i - 1] == s[i];
      WithoutAt(t, i - 1);
      assert s[..i] + s[i + 1..] == [s[0]] + (t[..i - 1] + t[i..]);
    }
  }

  /** The index at which a forward scan of `s` first meets `x`. */
  function FirstIndexOf<T(==)>(s: seq<T>, x: T): (r: Option<nat>)
    ensures r.Some? ==> r.value < |s| && s[r.value] == x && forall j :: 0 <= j < r.value ==> s[j] != x
    ensures r.None? ==> x !in s
  {
    if s == [] then None
    else if s[0] == x then Some(0)
    else match FirstIndexOf(s[1..], x)
      case None => None
      case Some(k) => Some(k + 1)
  }

  /**
   * Keys that strictly increase along the sequence, such as the time each
   * buffer was last handed out.
   */
  ghost predicate IncreasingUnder<T>(s: seq<T>, key: map<T, nat>)
  {
    && (forall x :: x in s ==> x in key)
    && (forall i, j :: 0 <= i < j < |s| ==> key[s[i]] < key[s[j]])
  }

  /**
   * Moving element i to the back keeps every element, puts s[i] last and
   * keeps the others in their relative order, each shifted left past i.
   */
  lemma MoveToBackPermutes<T>(s: seq<T>, i: nat)
    requires i < |s|
    ensures |MoveToBack(s, i)| == |s|
    ensures MoveToBack(s, i)[|s| - 1] == s[i]
    ensures multiset(MoveToBack(s, i)) == multiset(s)
    ensures forall j :: 0 <= j < i ==> MoveToBack(s, i)[j] == s[j]
    ensures forall j :: i < j < |s| ==> MoveToBack(s, i)[j - 1] == s[j]
  {
    assert s == s[..i] + [s[i]] + s[i + 1..];
    calc {
      multiset(MoveToBack(s, i));
      multiset(s[..i]) + multiset(s[i + 1..]) + multiset([s[i]]);
      multiset(s[..i] + [s[i]] + s[i + 1..]);
    }
  }

  /** Moving to the back keeps the elements and keeps them distinct. */
  lemma MoveToBackDistinct<T>(s: seq<T>, i: nat)
    requires i < |s| && Distinct(s)
    ensures forall x :: x in MoveToBack(s, i) <==> x in s
    ensures Distinct(MoveToBack(s, i))
  {
    MoveToBackMembers(s, i);
    var r := MoveToBack(s, i);
    MoveToBackPermutes(s, i);
    forall a, b | 0 <= a < b < |r|
      ensures r[a] != r[b]
    {
      var sa := if a < i then a else a + 1;
      var sb := if b < i then b else if b < |r| - 1 then b + 1 else i;
      assert r[a] == s[sa];
      assert r[b] == s[sb];
    }
  }

  /** Moving to the back keeps exactly the elements of the sequence. */
  lemma MoveToBackMembers<T>(s: seq<T>, i: nat)
    requires i < |s|
    ensures forall x :: x in MoveToBack(s, i) <==> x in s
  {
    var r := MoveToBack(s, i);
    MoveToBackPermutes(s, i);
    forall x
      ensures x in r <==> x in s
    {
      assert x in r <==> x in multiset(r);
      assert x in s <==> x in multiset(s);
    }
  }

  /**
   * Stamping the element moved to the back with a time later than every
   * stamp keeps the stamps increasing along the sequence.
   */
  lemma MoveToBackIncreasing<T>(s: seq<T>, i: nat, key: map<T, nat>, now: nat)
    requires i < |s| && Distinct(s) && IncreasingUnder(s, key)
    requires forall x :: x in s ==> key[x] < now
    ensures IncreasingUnder(MoveToBack(s, i), key[s[i] := now])
  {
    var r, key' := MoveToBack(s, i), key[s[i] := now];
    MoveToBackPermutes(s, i);
    MoveToBackDistinct(s, i);
    forall a, b | 0 <= a < b < |r|
      ensures key'[r[a]] < key'[r[b]]
    {
      var sa := if a < i then a else a + 1;
      assert r[a] == s[sa] && s[sa] != s[i];
      if b < |r| - 1 {
        var sb := if b < i then b else b + 1;
        assert r[b] == s[sb] && s[sb] != s[i];
        assert sa < sb;
      }
    }
  }

  /** Appending an element stamped later than every other keeps the stamps increasing. */
  lemma AppendIncreasing<T>(s: seq<T>, x: T, key: map<T, nat>, now: nat)
    requires x !in s && IncreasingUnder(s, key)
    requires forall y :: y in s ==> key[y] < now
    ensures IncreasingUnder(s + [x], key[x := now])
  {
    var r, key' := s + [x], key[x := now];
    forall a, b | 0 <= a < b < |r|
      ensures key'[r[a]] < key'[r[b]]
    {
      assert r[a] == s[a] && s[a] != x;
      if b < |s| {
        assert r[b] == s[b] && s[b] != x;
      }
    }
  }

  /** With increasing stamps the front element is the one used least recently. */
  lemma FrontIsLeastRecent<T>(s: seq<T>, key: map<T, nat>)
    requires |s| > 0 && IncreasingUnder(s, key)
    ensures forall x :: x in s ==> key[s[0]] <= key[x]
  {
    forall x | x in s
      ensures key[s[0]] <= key[x]
    {
      var j :| 0 <= j < |s| && s[j] == x;
      if j > 0 {
        assert key[s[0]] < key[s[j]];
      }
    }
  }
}
