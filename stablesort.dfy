/**
  Stable ordering by a small integer key, the shape of
  `Array.prototype.sort` with a comparator `key(a) - key(b)`: a stable sort
  (ECMA-262, 10th edition, section 22.1.3.27) by a key with values 1 to 4.
*/
module StableSort {

  /** Every key of `s` lies in 1..4. */
  ghost predicate KeysInRange<T>(key: T -> int, s: seq<T>) {
    forall i :: 0 <= i < |s| ==> 1 <= key(s[i]) <= 4
  }

  ghost predicate SortedBy<T>(key: T -> int, s: seq<T>) {
    forall k, l :: 0 <= k < l < |s| ==> key(s[k]) <= key(s[l])
  }

  /** The elements of key `r`, in their order in `s`. */
  function OfKey<T>(key: T -> int, s: seq<T>, r: int): seq<T>
  {
    if s == [] then [] else (if key(s[0]) == r then [s[0]] else []) + OfKey(key, s[1..], r)
  }

  /** A class holds only elements of its key, and no more elements than `s`. */
  lemma {:induction false} OfKeyKeys<T>(key: T -> int, s: seq<T>, r: int)
    ensures forall k :: 0 <= k < |OfKey(key, s, r)| ==> key(OfKey(key, s, r)[k]) == r
    ensures |OfKey(key, s, r)| <= |s|
    decreases |s|
  {
    if s != [] {
      OfKeyKeys(key, s[1..], r);
    }
  }

  /** The classes of keys `r` to 4, one after the other in key order. */
  function ClassesFrom<T>(key: T -> int, s: seq<T>, r: int): seq<T>
    decreases 5 - r
  {
    if r > 4 then [] else OfKey(key, s, r) + ClassesFrom(key, s, r + 1)
  }

  /** The reference stable order: each key class in key order, each in input order. */
  function ByKey<T>(key: T -> int, s: seq<T>): seq<T> {
    ClassesFrom(key, s, 1)
  }

  /** The reference order is the four classes one after the other. */
  lemma ByKeyExpanded<T>(key: T -> int, s: seq<T>)
    ensures ByKey(key, s) == OfKey(key, s, 1) + OfKey(key, s, 2) + OfKey(key, s, 3) + OfKey(key, s, 4)
  {
  }

  lemma {:induction false} OfKeyAppend<T>(key: T -> int, s: seq<T>, t: seq<T>, r: int)
    ensures OfKey(key, s + t, r) == OfKey(key, s, r) + OfKey(key, t, r)
    decreases |s|
  {
    if s == [] {
      assert s + t == t;
    } else {
      assert (s + t)[0] == s[0];
      assert (s + t)[1..] == s[1..] + t;
      OfKeyAppend(key, s[1..], t, r);
      var h := if key(s[0]) == r then [s[0]] else [];
      assert OfKey(key, s + t, r) == h + OfKey(key, s[1..] + t, r);
      assert OfKey(key, s, r) == h + OfKey(key, s[1..], r);
    }
  }

  /** Extracting a class from a sequence whose keys are all `k`. */
  lemma {:induction false} OfKeyUniform<T>(key: T -> int, s: seq<T>, k: int, r: int)
    requires forall i :: 0 <= i < |s| ==> key(s[i]) == k
    ensures OfKey(key, s, r) == if r == k then s else []
    decreases |s|
  {
    if s != [] {
      OfKeyUniform(key, s[1..], k, r);
      assert s == [s[0]] + s[1..];
    }
  }

  /** A class whose key no element has is empty. */
  lemma {:induction false} OfKeyNone<T>(key: T -> int, s: seq<T>, r: int)
    requires forall i :: 0 <= i < |s| ==> key(s[i]) != r
    ensures OfKey(key, s, r) == []
    decreases |s|
  {
    if s != [] {
      OfKeyNone(key, s[1..], r);
    }
  }

  /** Class `r` of the classes from `from` on is class `r` of `s` when `r` is among them, and empty otherwise. */
  lemma {:induction false} ClassesFromKeep<T>(key: T -> int, s: seq<T>, from: int, r: int)
    ensures OfKey(key, ClassesFrom(key, s, from), r) == if from <= r <= 4 then OfKey(key, s, r) else []
    decreases 5 - from
  {
    if from <= 4 {
      var c := OfKey(key, s, from);
      OfKeyAppend(key, c, ClassesFrom(key, s, from + 1), r);
      OfKeyKeys(key, s, from);
      OfKeyUniform(key, c, from, r);
      ClassesFromKeep(key, s, from + 1, r);
    }
  }

  /** The reference order keeps every key class exactly as it was: it is stable. */
  lemma ByKeyKeepsClasses<T>(key: T -> int, s: seq<T>, r: int)
    requires KeysInRange(key, s)
    ensures OfKey(key, ByKey(key, s), r) == OfKey(key, s, r)
  {
    ClassesFromKeep(key, s, 1, r);
    if r < 1 || r > 4 {
      OfKeyNone(key, s, r);
    }
  }

  /** The classes from `from` on are ordered by key, and their keys lie in `from`..4. */
  lemma {:induction false} ClassesFromSorted<T>(key: T -> int, s: seq<T>, from: int)
    ensures SortedBy(key, ClassesFrom(key, s, from))
    ensures forall i :: 0 <= i < |ClassesFrom(key, s, from)| ==> from <= key(ClassesFrom(key, s, from)[i]) <= 4
    decreases 5 - from
  {
    if from <= 4 {
      OfKeyKeys(key, s, from);
      ClassesFromSorted(key, s, from + 1);
    }
  }

  /** The reference order is ordered by key. */
  lemma ByKeySorted<T>(key: T -> int, s: seq<T>)
    ensures SortedBy(key, ByKey(key, s))
  {
    ClassesFromSorted(key, s, 1);
  }

  /** Taking one element off the front of `s` takes it off its own class only. */
  lemma OfKeyCons<T>(key: T -> int, s: seq<T>, r: int)
    requires s != []
    ensures OfKey(key, s, r) == (if key(s[0]) == r then [s[0]] + OfKey(key, s[1..], r) else OfKey(key, s[1..], r))
  {
  }

  /** The first element of `s` is in the classes from `from` on exactly when its key is among them. */
  lemma {:induction false} ClassesFromCons<T>(key: T -> int, s: seq<T>, from: int)
    requires s != []
    ensures multiset(ClassesFrom(key, s, from)) ==
      multiset(ClassesFrom(key, s[1..], from)) + if from <= key(s[0]) <= 4 then multiset{s[0]} else multiset{}
    decreases 5 - from
  {
    if from <= 4 {
      ClassesFromCons(key, s, from + 1);
      ClassesFromConsStep(key, s, from);
    }
  }

  /** One step of `ClassesFromCons`, from the classes after `from` to those from `from` on. */
  lemma ClassesFromConsStep<T>(key: T -> int, s: seq<T>, from: int)
    requires s != [] && from <= 4
    requires multiset(ClassesFrom(key, s, from + 1)) ==
      multiset(ClassesFrom(key, s[1..], from + 1)) + if from + 1 <= key(s[0]) <= 4 then multiset{s[0]} else multiset{}
    ensures multiset(ClassesFrom(key, s, from)) ==
      multiset(ClassesFrom(key, s[1..], from)) + if from <= key(s[0]) <= 4 then multiset{s[0]} else multiset{}
  {
    OfKeyCons(key, s, from);
  }

  /** The reference order is a permutation of its input. */
  lemma {:induction false} ByKeyPermutes<T>(key: T -> int, s: seq<T>)
    requires KeysInRange(key, s)
    ensures multiset(ByKey(key, s)) == multiset(s)
    decreases |s|
  {
    if s != [] {
      assert KeysInRange(key, s[1..]);
      ByKeyPermutes(key, s[1..]);
      ByKeyPermutesStep(key, s);
    }
  }

  lemma ByKeyPermutesStep<T>(key: T -> int, s: seq<T>)
    requires s != [] && 1 <= key(s[0]) <= 4
    requires multiset(ByKey(key, s[1..])) == multiset(s[1..])
    ensures multiset(ByKey(key, s)) == multiset(s)
  {
    ClassesFromCons(key, s, 1);
    MultisetCons(s);
  }

  lemma MultisetCons<T>(s: seq<T>)
    requires s != []
    ensures multiset(s) == multiset{s[0]} + multiset(s[1..])
  {
    assert s == [s[0]] + s[1..];
  }

  /** A key-ordered sequence is its own reference order. */
  lemma {:induction false} SortedIsByKey<T>(key: T -> int, t: seq<T>)
    requires KeysInRange(key, t)
    requires SortedBy(key, t)
    ensures ByKey(key, t) == t
    decreases |t|
  {
    if t != [] {
      assert KeysInRange(key, t[1..]) && SortedBy(key, t[1..]);
      SortedIsByKey(key, t[1..]);
      ClassesFromLeast(key, t, 1);
      assert t == [t[0]] + t[1..];
    }
  }

  /**
    When `t[0]` has the least key, it goes to the front of the classes from
    `from` on if its key is among them, and is absent otherwise.
  */
  lemma {:induction false} ClassesFromLeast<T>(key: T -> int, t: seq<T>, from: int)
    requires t != [] && 1 <= key(t[0]) <= 4
    requires forall i :: 0 <= i < |t| ==> key(t[0]) <= key(t[i])
    ensures ClassesFrom(key, t, from) ==
      if from <= key(t[0]) then [t[0]] + ClassesFrom(key, t[1..], from) else ClassesFrom(key, t[1..], from)
    decreases 5 - from
  {
    if from <= 4 {
      ClassesFromLeast(key, t, from + 1);
      if from < key(t[0]) {
        BelowLeastStep(key, t, from);
      } else {
        AtOrAboveLeastStep(key, t, from);
      }
    }
  }

  /** A class below the least key adds nothing on either side. */
  lemma BelowLeastStep<T>(key: T -> int, t: seq<T>, from: int)
    requires t != [] && from < key(t[0]) && from <= 4
    requires forall i :: 0 <= i < |t| ==> key(t[0]) <= key(t[i])
    requires ClassesFrom(key, t, from + 1) == [t[0]] + ClassesFrom(key, t[1..], from + 1)
    ensures ClassesFrom(key, t, from) == [t[0]] + ClassesFrom(key, t[1..], from)
  {
    BelowLeastEmpty(key, t, from);
    assert ClassesFrom(key, t, from) == ClassesFrom(key, t, from + 1);
    assert ClassesFrom(key, t[1..], from) == ClassesFrom(key, t[1..], from + 1);
  }

  lemma AtOrAboveLeastStep<T>(key: T -> int, t: seq<T>, from: int)
    requires t != [] && key(t[0]) <= from <= 4
    requires ClassesFrom(key, t, from + 1) == ClassesFrom(key, t[1..], from + 1)
    ensures ClassesFrom(key, t, from) ==
      if from == key(t[0]) then [t[0]] + ClassesFrom(key, t[1..], from) else ClassesFrom(key, t[1..], from)
  {
    if from == key(t[0]) {
      AtLeastStep(key, t, from);
    } else {
      AboveLeastStep(key, t, from);
    }
  }

  lemma AtLeastStep<T>(key: T -> int, t: seq<T>, from: int)
    requires t != [] && key(t[0]) == from <= 4
    requires ClassesFrom(key, t, from + 1) == ClassesFrom(key, t[1..], from + 1)
    ensures ClassesFrom(key, t, from) == [t[0]] + ClassesFrom(key, t[1..], from)
  {
    OfKeyCons(key, t, from);
    AppendAssoc([t[0]], OfKey(key, t[1..], from), ClassesFrom(key, t[1..], from + 1));
  }

  lemma AppendAssoc<T>(a: seq<T>, b: seq<T>, c: seq<T>)
    ensures (a + b) + c == a + (b + c)
  {
  }

  lemma AboveLeastStep<T>(key: T -> int, t: seq<T>, from: int)
    requires t != [] && key(t[0]) < from <= 4
    requires ClassesFrom(key, t, from + 1) == ClassesFrom(key, t[1..], from + 1)
    ensures ClassesFrom(key, t, from) == ClassesFrom(key, t[1..], from)
  {
    OfKeyCons(key, t, from);
  }

  /** No element has a key below the least one, so that class is empty, with or without `t[0]`. */
  lemma BelowLeastEmpty<T>(key: T -> int, t: seq<T>, r: int)
    requires t != [] && r < key(t[0])
    requires forall i :: 0 <= i < |t| ==> key(t[0]) <= key(t[i])
    ensures OfKey(key, t, r) == [] && OfKey(key, t[1..], r) == []
  {
    OfKeyNone(key, t, r);
    OfKeyNone(key, t[1..], r);
  }

  /** Sorting keeps the length of the input. */
  lemma ByKeyLength<T>(key: T -> int, s: seq<T>)
    requires KeysInRange(key, s)
    ensures |ByKey(key, s)| == |s|
  {
    ByKeyPermutes(key, s);
    assert |multiset(ByKey(key, s))| == |multiset(s)|;
  }

  /**
    Four elements of keys 2, 4, 1 and 4 come out as the key-1 element, the
    key-2 element, then the two key-4 elements in their input order.
  */
  lemma ByKeyOfFour<T>(key: T -> int, w: T, x: T, y: T, z: T)
    requires key(w) == 2 && key(x) == 4 && key(y) == 1 && key(z) == 4
    ensures ByKey(key, [w, x, y, z]) == [y, w, x, z]
  {
    var s := [w, x, y, z];
    assert s[1..] == [x, y, z] && s[1..][1..] == [y, z] && s[1..][1..][1..] == [z] && [z][1..] == [];
    assert OfKey(key, [z], 1) == [] && OfKey(key, [z], 4) == [z];
    assert OfKey(key, [y, z], 1) == [y] && OfKey(key, [y, z], 4) == [z];
    assert OfKey(key, [x, y, z], 1) == [y] && OfKey(key, [x, y, z], 4) == [x, z];
    assert OfKey(key, s, 1) == [y];
    assert OfKey(key, s, 4) == [x, z];
    OfKeyNone(key, s, 3);
    OfKeyUniform(key, [w], 2, 2);
    OfKeyNone(key, s[1..], 2);
    assert OfKey(key, s, 2) == [w];
    ByKeyExpanded(key, s);
  }

  /** A stable sort by key has only one possible result: the reference order. */
  lemma StableSortIsUnique<T>(key: T -> int, s: seq<T>, t: seq<T>)
    requires KeysInRange(key, t)
    requires SortedBy(key, t)
    requires forall r :: OfKey(key, t, r) == OfKey(key, s, r)
    ensures t == ByKey(key, s)
  {
    SortedIsByKey(key, t);
  }

  /** Swapping two neighbours with different keys leaves every key class unchanged. */
  lemma SwapKeepsClasses<T>(key: T -> int, s: seq<T>, t: seq<T>, j: int)
    requires 0 < j < |s| == |t|
    requires t[j - 1] == s[j] && t[j] == s[j - 1]
    requires forall k :: 0 <= k < |s| && k != j - 1 && k != j ==> t[k] == s[k]
    requires key(s[j - 1]) != key(s[j])
    ensures forall r :: OfKey(key, t, r) == OfKey(key, s, r)
  {
    var pre, post := s[..j - 1], s[j + 1..];
    assert s == pre + [s[j - 1], s[j]] + post;
    assert t == pre + [s[j], s[j - 1]] + post;
    forall r ensures OfKey(key, t, r) == OfKey(key, s, r) {
      OfKeyAppend(key, pre + [s[j - 1], s[j]], post, r);
      OfKeyAppend(key, pre, [s[j - 1], s[j]], r);
      OfKeyAppend(key, pre + [s[j], s[j - 1]], post, r);
      OfKeyAppend(key, pre, [s[j], s[j - 1]], r);
      assert [s[j - 1], s[j]][1..] == [s[j]];
      assert [s[j], s[j - 1]][1..] == [s[j - 1]];
    }
  }

  /** The first `n` elements of `s` are ordered by key. */
  ghost predicate SortedPrefix<T>(key: T -> int, s: seq<T>, n: int)
    requires 0 <= n <= |s|
  {
    forall k, l :: 0 <= k < l < n ==> key(s[k]) <= key(s[l])
  }

  /**
    The state of the insertion of `s[j]`, which started at position `i`: the
    rest of `s[..i + 1]` is ordered, and `s[j]` has a smaller key than every
    element it has been moved past.
  */
  ghost predicate Inserting<T>(key: T -> int, s: seq<T>, i: int, j: int) {
    && 0 <= j <= i < |s|
    && (forall k, l :: 0 <= k < l <= i && k != j && l != j ==> key(s[k]) <= key(s[l]))
    && (forall l :: j < l <= i ==> key(s[j]) < key(s[l]))
  }

  ghost predicate SameClasses<T>(key: T -> int, s: seq<T>, t: seq<T>) {
    forall r :: OfKey(key, s, r) == OfKey(key, t, r)
  }

  lemma InsertStart<T>(key: T -> int, s: seq<T>, i: int)
    requires 0 <= i < |s| && SortedPrefix(key, s, i)
    ensures Inserting(key, s, i, i)
  {
  }

  /** Swapping `s[j]` with a left neighbour of greater key moves the insertion one place on. */
  lemma InsertStep<T>(key: T -> int, s: seq<T>, t: seq<T>, i: int, j: int)
    requires Inserting(key, s, i, j) && KeysInRange(key, s)
    requires j > 0 && key(s[j - 1]) > key(s[j])
    requires t == s[j - 1 := s[j]][j := s[j - 1]]
    ensures Inserting(key, t, i, j - 1) && KeysInRange(key, t)
    ensures SameClasses(key, t, s)
  {
    SwapKeepsClasses(key, s, t, j);
  }

  /** The insertion stops once the left neighbour's key is not greater: the prefix is then ordered. */
  lemma InsertDone<T>(key: T -> int, s: seq<T>, i: int, j: int)
    requires Inserting(key, s, i, j)
    requires j == 0 || key(s[j - 1]) <= key(s[j])
    ensures SortedPrefix(key, s, i + 1)
  {
  }

  /**
    `a.sort((p, q) => key(p) - key(q))`: sorts `a` in place by insertion
    through neighbour swaps, which never moves an element past one of equal
    key, and so produces the reference stable order.
  */
  method SortByKey<T>(key: T -> int, a: array<T>)
    requires KeysInRange(key, a[..])
    modifies a
    ensures SortedBy(key, a[..])
    ensures forall r :: OfKey(key, a[..], r) == OfKey(key, old(a[..]), r)
    ensures a[..] == ByKey(key, old(a[..]))
  {
    var i := 0;
    while i < a.Length
      invariant 0 <= i <= a.Length
      invariant SortedPrefix(key, a[..], i)
      invariant SameClasses(key, a[..], old(a[..]))
      invariant KeysInRange(key, a[..])
    {
      InsertBack(key, a, i);
      i := i + 1;
    }
    assert SortedBy(key, a[..]);
    StableSortIsUnique(key, old(a[..]), a[..]);
  }

  /** Moves `a[i]` left past every element of strictly greater key before it. */
  method InsertBack<T>(key: T -> int, a: array<T>, i: int)
    requires 0 <= i < a.Length
    requires SortedPrefix(key, a[..], i) && KeysInRange(key, a[..])
    modifies a
    ensures SortedPrefix(key, a[..], i + 1) && KeysInRange(key, a[..])
    ensures SameClasses(key, a[..], old(a[..]))
  {
    var j := i;
    InsertStart(key, a[..], i);
    while j > 0 && key(a[j - 1]) - key(a[j]) > 0
      invariant Inserting(key, a[..], i, j) && KeysInRange(key, a[..])
      invariant SameClasses(key, a[..], old(a[..]))
    {
      ghost var before := a[..];
      a[j - 1], a[j] := a[j], a[j - 1];
      InsertStep(key, before, a[..], i, j);
      j := j - 1;
    }
    InsertDone(key, a[..], i, j);
  }
}
