/**
 * Occurrence counts over a sequence, the distinct elements of a sequence in
 * the order they are first seen (the key order of an insertion-ordered
 * dictionary), and the mode list that find_active_cookie computes from them.
 */
module Tally {

  /** Number of occurrences of x in s. */
  function Count<T(==)>(s: seq<T>, x: T): nat
  {
    multiset(s)[x]
  }

  predicate NoDuplicates<T(==)>(s: seq<T>)
  {
    forall i, j :: 0 <= i < j < |s| ==> s[i] != s[j]
  }

  /** Count adds up over a concatenation. */
  lemma CountAppend<T>(a: seq<T>, b: seq<T>, x: T)
    ensures Count(a + b, x) == Count(a, x) + Count(b, x)
  {
  }

  /** A sequence all of whose elements are x holds x exactly |s| times. */
  lemma {:induction false} CountConstant<T>(s: seq<T>, x: T)
    requires forall i :: 0 <= i < |s| ==> s[i] == x
    ensures Count(s, x) == |s|
  {
    if |s| > 0 {
      assert s == s[..|s| - 1] + [s[|s| - 1]];
      CountConstant(s[..|s| - 1], x);
    }
  }

  /** x occurs exactly at the positions lo..hi-1 of s, so hi - lo times. */
  lemma CountBlock<T>(s: seq<T>, x: T, lo: nat, hi: nat)
    requires lo <= hi <= |s|
    requires forall k :: 0 <= k < |s| ==> (s[k] == x <==> lo <= k < hi)
    ensures Count(s, x) == hi - lo
  {
    var before, block, after := s[..lo], s[lo..hi], s[hi..];
    assert s == before + block + after;
    assert x !in before && x !in after;
    CountConstant(block, x);
  }

  /** Position of the first occurrence of x in s. */
  function FirstIndex<T(==)>(s: seq<T>, x: T): (k: nat)
    requires x in s
    ensures k < |s| && s[k] == x && x !in s[..k]
  {
    if s[0] == x then 0
    else
      assert x in s[1..];
      var k := FirstIndex(s[1..], x);
      assert s[..k + 1] == [s[0]] + s[1..][..k];
      k + 1
  }

  /** The first occurrence is the only one with nothing equal before it. */
  lemma FirstIndexUnique<T>(s: seq<T>, x: T, k: nat)
    requires k < |s| && s[k] == x && x !in s[..k]
    ensures FirstIndex(s, x) == k
  {
  }

  /** Elements are listed in the order of their first occurrence in w. */
  predicate InFirstSeenOrder<T(==)>(out: seq<T>, w: seq<T>)
  {
    && (forall i :: 0 <= i < |out| ==> out[i] in w)
    && (forall i, j :: 0 <= i < j < |out| ==> FirstIndex(w, out[i]) < FirstIndex(w, out[j]))
  }

  /**
   * The distinct elements of s in first-seen order: the key sequence of a
   * dictionary filled by walking s from left to right.
   */
  function Distinct<T(==)>(s: seq<T>): seq<T>
  {
    if |s| == 0 then []
    else
      var seen := Distinct(s[..|s| - 1]);
      var x := s[|s| - 1];
      if x in seen then seen else seen + [x]
  }

  /** Distinct keeps every element of s, adds none, and lists each once. */
  lemma {:induction false} DistinctElements<T>(s: seq<T>)
    ensures forall i :: 0 <= i < |Distinct(s)| ==> Distinct(s)[i] in s
    ensures forall i :: 0 <= i < |s| ==> s[i] in Distinct(s)
    ensures NoDuplicates(Distinct(s))
  {
    if |s| > 0 {
      var p, x := s[..|s| - 1], s[|s| - 1];
      DistinctElements(p);
      assert s == p + [x];
      var keys := Distinct(s);
      forall i | 0 <= i < |s|
        ensures s[i] in keys
      {
        if i < |p| {
          assert s[i] == p[i];
        }
      }
    }
  }

  /** FirstIndex in an extension of s agrees with FirstIndex in s. */
  lemma FirstIndexExtend<T>(s: seq<T>, t: seq<T>, x: T)
    requires x in s
    ensures FirstIndex(s + t, x) == FirstIndex(s, x)
  {
    var k := FirstIndex(s, x);
    assert (s + t)[..k] == s[..k];
    FirstIndexUnique(s + t, x, k);
  }

  /** Distinct lists the elements of s in the order they are first seen. */
  lemma {:induction false} DistinctFirstSeen<T>(s: seq<T>)
    ensures InFirstSeenOrder(Distinct(s), s)
  {
    if |s| > 0 {
      var p, x := s[..|s| - 1], s[|s| - 1];
      assert s == p + [x];
      var seen := Distinct(p);
      DistinctFirstSeen(p);
      DistinctElements(p);
      forall i | 0 <= i < |seen|
        ensures FirstIndex(s, seen[i]) == FirstIndex(p, seen[i])
      {
        FirstIndexExtend(p, [x], seen[i]);
      }
      if x !in seen {
        assert x !in p;
        FirstIndexUnique(s, x, |p|);
        var keys := seen + [x];
        forall i, j | 0 <= i < j < |keys|
          ensures FirstIndex(s, keys[i]) < FirstIndex(s, keys[j])
        {
          if j == |seen| {
            assert keys[i] == seen[i];
          }
        }
      }
    }
  }

  /** The largest count in w of an element of keys; 0 when keys is empty. */
  function MaxCount<T(==)>(keys: seq<T>, w: seq<T>): (m: nat)
    ensures forall i :: 0 <= i < |keys| ==> Count(w, keys[i]) <= m
    ensures |keys| > 0 ==> exists i :: 0 <= i < |keys| && Count(w, keys[i]) == m
  {
    if |keys| == 0 then 0
    else
      var m0 := MaxCount(keys[..|keys| - 1], w);
      var c := Count(w, keys[|keys| - 1]);
      assert forall i :: 0 <= i < |keys| - 1 ==> keys[..|keys| - 1][i] == keys[i];
      if c > m0 then c else m0
  }

  /** The elements of keys whose count in w is m, in the order of keys. */
  function WithCount<T(==)>(keys: seq<T>, w: seq<T>, m: nat): (out: seq<T>)
    ensures forall i :: 0 <= i < |out| ==> out[i] in keys && Count(w, out[i]) == m
    ensures forall i :: 0 <= i < |keys| && Count(w, keys[i]) == m ==> keys[i] in out
  {
    if |keys| == 0 then []
    else
      var x := keys[|keys| - 1];
      assert keys == keys[..|keys| - 1] + [x];
      WithCount(keys[..|keys| - 1], w, m) + (if Count(w, x) == m then [x] else [])
  }

  /** No key reaches a count above the largest count. */
  lemma NoneAbove<T>(keys: seq<T>, w: seq<T>, m: nat)
    requires MaxCount(keys, w) < m
    ensures WithCount(keys, w, m) == []
  {
  }

  /** Filtering a duplicate-free sequence keeps it duplicate-free and in order. */
  lemma {:induction false} WithCountKeepsOrder<T>(keys: seq<T>, w: seq<T>, m: nat)
    requires NoDuplicates(keys) && InFirstSeenOrder(keys, w)
    ensures NoDuplicates(WithCount(keys, w, m)) && InFirstSeenOrder(WithCount(keys, w, m), w)
  {
    if |keys| > 0 {
      var p, x := keys[..|keys| - 1], keys[|keys| - 1];
      assert forall i :: 0 <= i < |p| ==> p[i] == keys[i];
      WithCountKeepsOrder(p, w, m);
      var prev := WithCount(p, w, m);
      if Count(w, x) == m {
        var out := prev + [x];
        assert x !in p;
        forall i | 0 <= i < |prev|
          ensures prev[i] != x && FirstIndex(w, prev[i]) < FirstIndex(w, x)
        {
          assert prev[i] in p;
          var a :| 0 <= a < |p| && p[a] == prev[i];
          assert keys[a] == prev[i];
        }
        forall i, j | 0 <= i < j < |out|
          ensures out[i] != out[j] && FirstIndex(w, out[i]) < FirstIndex(w, out[j])
        {
          if j == |prev| {
            assert out[i] == prev[i];
          }
        }
      }
    }
  }

  /**
   * frequency and keys are the dictionary that counting seen from left to
   * right builds: keys in insertion order, frequency the count of each.
   */
  ghost predicate IsTally<T(!new)>(frequency: map<T, nat>, keys: seq<T>, seen: seq<T>)
  {
    && keys == Distinct(seen)
    && (forall x :: x in frequency <==> x in keys)
    && (forall i :: 0 <= i < |keys| ==> frequency[keys[i]] == Count(seen, keys[i]))
  }

  /** Counting seen + [x] adds one to the count of x and leaves every other count alone. */
  lemma CountExtend<T>(seen: seq<T>, x: T, y: T)
    ensures Count(seen + [x], y) == Count(seen, y) + (if y == x then 1 else 0)
  {
    CountAppend(seen, [x], y);
  }

  /** Counting one more element: bump a known key, or insert a new one with count 1. */
  lemma TallyStep<T(!new)>(frequency: map<T, nat>, keys: seq<T>, seen: seq<T>, x: T)
    requires IsTally(frequency, keys, seen)
    ensures x in frequency ==> IsTally(frequency[x := frequency[x] + 1], keys, seen + [x])
    ensures x !in frequency ==> IsTally(frequency[x := 1], keys + [x], seen + [x])
  {
    if x in frequency {
      TallyBump(frequency, keys, seen, x);
    } else {
      TallyInsert(frequency, keys, seen, x);
    }
  }

  lemma TallyBump<T(!new)>(frequency: map<T, nat>, keys: seq<T>, seen: seq<T>, x: T)
    requires IsTally(frequency, keys, seen) && x in frequency
    ensures IsTally(frequency[x := frequency[x] + 1], keys, seen + [x])
  {
    var seen' := seen + [x];
    assert seen'[..|seen|] == seen;
    assert x in keys;
    assert Distinct(seen') == keys;
    forall i | 0 <= i < |keys|
      ensures frequency[x := frequency[x] + 1][keys[i]] == Count(seen', keys[i])
    {
      CountExtend(seen, x, keys[i]);
    }
  }

  lemma TallyInsert<T(!new)>(frequency: map<T, nat>, keys: seq<T>, seen: seq<T>, x: T)
    requires IsTally(frequency, keys, seen) && x !in frequency
    ensures IsTally(frequency[x := 1], keys + [x], seen + [x])
  {
    var seen', keys' := seen + [x], keys + [x];
    assert seen'[..|seen|] == seen;
    DistinctElements(seen);
    assert x !in keys;
    assert Distinct(seen') == keys';
    forall i | 0 <= i < |keys'|
      ensures frequency[x := 1][keys'[i]] == Count(seen', keys'[i])
    {
      CountExtend(seen, x, keys'[i]);
      if i < |keys| {
        assert keys'[i] == keys[i];
      }
    }
  }

  /** The dictionary that counting s from left to right builds. */
  function Frequencies<T(==)>(s: seq<T>): map<T, nat>
  {
    if |s| == 0 then map[]
    else
      var counted := Frequencies(s[..|s| - 1]);
      var x := s[|s| - 1];
      if x in counted then counted[x := counted[x] + 1] else counted[x := 1]
  }

  /** Counting s[..i + 1] is counting s[..i] and then s[i]; the key sequence gains s[i] when it is new. */
  lemma FrequenciesStep<T>(s: seq<T>, i: nat)
    requires i < |s|
    ensures s[i] in Frequencies(s[..i]) <==> s[i] in Distinct(s[..i])
    ensures var f := Frequencies(s[..i]);
      Frequencies(s[..i + 1]) == if s[i] in f then f[s[i] := f[s[i]] + 1] else f[s[i] := 1]
    ensures Distinct(s[..i + 1]) == if s[i] in Distinct(s[..i]) then Distinct(s[..i]) else Distinct(s[..i]) + [s[i]]
  {
    assert s[..i + 1][..i] == s[..i];
    FrequenciesDomain(s[..i], s[i]);
    DistinctElements(s[..i]);
  }

  /** The dictionary has a key for exactly the elements of s. */
  lemma {:induction false} FrequenciesDomain<T>(s: seq<T>, x: T)
    ensures x in Frequencies(s) <==> x in s
  {
    if |s| > 0 {
      var p := s[..|s| - 1];
      FrequenciesDomain(p, x);
      assert s == p + [s[|s| - 1]];
    }
  }

  /** Tally maps each element of s (and nothing else) to its number of occurrences. */
  lemma {:induction false} TallyCounts<T(!new)>(s: seq<T>)
    ensures IsTally(Frequencies(s), Distinct(s), s)
  {
    if |s| > 0 {
      var p, x := s[..|s| - 1], s[|s| - 1];
      TallyCounts(p);
      assert s == p + [x];
      TallyStep(Frequencies(p), Distinct(p), p, x);
    }
  }

  /** One step of the maximum-and-ties loop over keys. */
  lemma ModeStep<T>(keys: seq<T>, w: seq<T>, j: nat, m: nat, out: seq<T>)
    requires j < |keys| && m == MaxCount(keys[..j], w) && out == WithCount(keys[..j], w, m)
    ensures var v := Count(w, keys[j]);
      if v > m then v == MaxCount(keys[..j + 1], w) && [keys[j]] == WithCount(keys[..j + 1], w, v)
      else if v == m then m == MaxCount(keys[..j + 1], w) && out + [keys[j]] == WithCount(keys[..j + 1], w, m)
      else m == MaxCount(keys[..j + 1], w) && out == WithCount(keys[..j + 1], w, m)
  {
    assert keys[..j + 1][..j] == keys[..j];
    if Count(w, keys[j]) > m {
      NoneAbove(keys[..j], w, Count(w, keys[j]));
    }
  }

  /** The cookies with the highest count in w, in first-seen order. */
  function Modes<T(==)>(w: seq<T>): seq<T>
  {
    var keys := Distinct(w);
    WithCount(keys, w, MaxCount(keys, w))
  }

  /** x is a mode of w exactly when it occurs in w and no element occurs more often. */
  lemma ModesAreMostFrequent<T>(w: seq<T>, x: T)
    ensures x in Modes(w) <==> x in w && forall y :: y in w ==> Count(w, y) <= Count(w, x)
  {
    var keys := Distinct(w);
    var m := MaxCount(keys, w);
    DistinctElements(w);
    if x in w && forall y :: y in w ==> Count(w, y) <= Count(w, x) {
      var i :| 0 <= i < |keys| && Count(w, keys[i]) == m;
      assert keys[i] in w;
      var k :| 0 <= k < |keys| && keys[k] == x;
    }
    if x in Modes(w) {
      forall y | y in w
        ensures Count(w, y) <= Count(w, x)
      {
        var k :| 0 <= k < |keys| && keys[k] == y;
      }
    }
  }

  /** A non-empty range always has at least one mode. */
  lemma ModesNonEmpty<T>(w: seq<T>)
    requires |w| > 0
    ensures |Modes(w)| > 0
  {
    var keys := Distinct(w);
    DistinctElements(w);
    assert w[0] in keys;
    var i :| 0 <= i < |keys| && Count(w, keys[i]) == MaxCount(keys, w);
    assert keys[i] in Modes(w);
  }

  /** The mode list has no duplicates and follows first-seen order. */
  lemma ModesFirstSeen<T>(w: seq<T>)
    ensures NoDuplicates(Modes(w)) && InFirstSeenOrder(Modes(w), w)
  {
    DistinctFirstSeen(w);
    WithCountKeepsOrder(Distinct(w), w, MaxCount(Distinct(w), w));
  }

  /** The head of a list in first-seen order is seen before any of its other elements. */
  lemma FirstIsEarliest<T>(p: seq<T>, w: seq<T>, x: T)
    requires InFirstSeenOrder(p, w) && x in p
    ensures FirstIndex(w, p[0]) <= FirstIndex(w, x)
  {
    var k :| 0 <= k < |p| && p[k] == x;
    if k > 0 {
      assert FirstIndex(w, p[0]) < FirstIndex(w, p[k]);
    }
  }

  /** Two lists in first-seen order with the same elements are the same list. */
  lemma {:induction false} FirstSeenOrderUnique<T>(p: seq<T>, q: seq<T>, w: seq<T>)
    requires InFirstSeenOrder(p, w) && InFirstSeenOrder(q, w)
    requires forall x :: x in p <==> x in q
    ensures p == q
  {
    assert |p| == 0 <==> |q| == 0 by {
      if |p| > 0 {
        assert p[0] in q;
      }
      if |q| > 0 {
        assert q[0] in p;
      }
    }
    if |p| > 0 {
      SameHead(p, q, w);
      SameTail(p, q, w);
      TailFirstSeen(p, w);
      TailFirstSeen(q, w);
      FirstSeenOrderUnique(p[1..], q[1..], w);
      assert p == [p[0]] + p[1..] && q == [q[0]] + q[1..];
    }
  }

  /** The tail of a list in first-seen order is in first-seen order, and all of it is seen after the head. */
  lemma TailFirstSeen<T>(p: seq<T>, w: seq<T>)
    requires InFirstSeenOrder(p, w) && |p| > 0
    ensures InFirstSeenOrder(p[1..], w)
    ensures forall x :: x in p[1..] ==> x in p && FirstIndex(w, p[0]) < FirstIndex(w, x)
  {
    var t := p[1..];
    assert forall i :: 0 <= i < |t| ==> t[i] == p[i + 1];
    forall x | x in t
      ensures x in p && FirstIndex(w, p[0]) < FirstIndex(w, x)
    {
      var k :| 0 <= k < |t| && t[k] == x;
      assert p[k + 1] == x;
    }
  }

  /** Two lists in first-seen order with the same elements start alike. */
  lemma SameHead<T>(p: seq<T>, q: seq<T>, w: seq<T>)
    requires InFirstSeenOrder(p, w) && InFirstSeenOrder(q, w)
    requires forall x :: x in p <==> x in q
    requires |p| > 0 && |q| > 0
    ensures p[0] == q[0]
  {
    assert p[0] in q && q[0] in p;
    FirstIsEarliest(p, w, q[0]);
    FirstIsEarliest(q, w, p[0]);
    assert p[0] == w[FirstIndex(w, p[0])] == w[FirstIndex(w, q[0])] == q[0];
  }

  /** Two lists in first-seen order with the same elements and the same head have tails with the same elements. */
  lemma SameTail<T>(p: seq<T>, q: seq<T>, w: seq<T>)
    requires InFirstSeenOrder(p, w) && InFirstSeenOrder(q, w)
    requires forall x :: x in p <==> x in q
    requires |p| > 0 && |q| > 0 && p[0] == q[0]
    ensures forall x :: x in p[1..] <==> x in q[1..]
  {
    TailFirstSeen(p, w);
    TailFirstSeen(q, w);
    assert p == [p[0]] + p[1..] && q == [q[0]] + q[1..];
  }

  /**
   * The mode list is the one list that holds exactly the most frequent
   * elements of w, in the order they are first seen.
   */
  lemma ModesCharacterised<T>(w: seq<T>, out: seq<T>)
    ensures out == Modes(w) <==>
              && InFirstSeenOrder(out, w)
              && forall x :: x in out <==> x in w && forall y :: y in w ==> Count(w, y) <= Count(w, x)
  {
    ModesFirstSeen(w);
    forall x
      ensures x in Modes(w) <==> x in w && forall y :: y in w ==> Count(w, y) <= Count(w, x)
    {
      ModesAreMostFrequent(w, x);
    }
    if InFirstSeenOrder(out, w) && forall x :: x in out <==> x in w && forall y :: y in w ==> Count(w, y) <= Count(w, x) {
      FirstSeenOrderUnique(out, Modes(w), w);
    }
  }
}
