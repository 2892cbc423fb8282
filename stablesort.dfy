/**
 * rows.sort(cmpRows): a stable sort of the records by key. Array.prototype.sort
 * is required to be stable; for a column whose keys are all of one kind
 * cmpRows is a total preorder, and SortGroupsUnique shows that every stable
 * sort then yields the same order as the insertion sort modelled here.
 */
module StableSort {
  import opened Keys
  import opened Grouping

  /** Put g after the last record of s whose key is not greater than g's. */
  function Insert(s: seq<Group>, g: Group): (r: seq<Group>)
    ensures |r| == |s| + 1
    decreases |s|
  {
    if s == [] then [g]
    else if Cmp(s[|s| - 1].key, g.key) > 0 then Insert(s[..|s| - 1], g) + [s[|s| - 1]]
    else s + [g]
  }

  function SortGroups(s: seq<Group>): (r: seq<Group>)
    ensures |r| == |s|
    decreases |s|
  {
    if s == [] then [] else Insert(SortGroups(s[..|s| - 1]), s[|s| - 1])
  }

  /** Keys never decrease under cmpRows. */
  predicate Sorted(s: seq<Group>) {
    forall i, j :: 0 <= i < j < |s| ==> Cmp(s[i].key, s[j].key) <= 0
  }

  /** Every key is a string key (str) or none is (not str). */
  predicate KindIs(s: seq<Group>, str: bool) {
    forall i :: 0 <= i < |s| ==> s[i].key.Str? == str
  }

  /** A sort column whose keys are all of one kind. */
  predicate OneKind(s: seq<Group>) {
    KindIs(s, true) || KindIs(s, false)
  }

  /** The records whose key ties with k under cmpRows, in their order in s. */
  function Class(s: seq<Group>, k: Key): seq<Group>
    decreases |s|
  {
    if s == [] then []
    else Class(s[..|s| - 1], k) + (if Cmp(s[|s| - 1].key, k) == 0 then [s[|s| - 1]] else [])
  }

  lemma {:induction false} InsertPermutes(s: seq<Group>, g: Group)
    ensures multiset(Insert(s, g)) == multiset(s) + multiset{g}
    decreases |s|
  {
    if s != [] {
      var init, last := s[..|s| - 1], s[|s| - 1];
      assert s == init + [last];
      if Cmp(last.key, g.key) > 0 {
        InsertPermutes(init, g);
      }
    }
  }

  /** Inserting a record adds its rows, and no others, to the rows of the sequence. */
  lemma {:induction false} InsertKeepsRows(s: seq<Group>, g: Group)
    ensures multiset(Concat(Insert(s, g))) == multiset(Concat(s)) + multiset(g.rows)
    decreases |s|
  {
    if s != [] {
      var init, last := s[..|s| - 1], s[|s| - 1];
      assert s == init + [last];
      if Cmp(last.key, g.key) > 0 {
        InsertKeepsRows(init, g);
        var r := Insert(init, g);
        assert (r + [last])[..|r|] == r;
      } else {
        assert (s + [g])[..|s|] == s;
      }
    } else {
      assert [g][..0] == [];
    }
  }

  /** Sorting rearranges the records: none is lost or copied. */
  lemma {:induction false} SortGroupsPermutes(s: seq<Group>)
    ensures multiset(SortGroups(s)) == multiset(s)
    decreases |s|
  {
    if s != [] {
      var init, last := s[..|s| - 1], s[|s| - 1];
      var sortedInit := SortGroups(init);
      calc {
        multiset(SortGroups(s));
        multiset(Insert(sortedInit, last));
        { InsertPermutes(sortedInit, last); }
        multiset(sortedInit) + multiset{last};
        { SortGroupsPermutes(init); }
        multiset(init) + multiset{last};
        { assert s == init + [last]; }
        multiset(s);
      }
    }
  }

  /** Sorting rearranges the rows with the records: none is lost or copied. */
  lemma {:induction false} SortGroupsKeepsRows(s: seq<Group>)
    ensures multiset(Concat(SortGroups(s))) == multiset(Concat(s))
    decreases |s|
  {
    if s != [] {
      var init, last := s[..|s| - 1], s[|s| - 1];
      SortGroupsKeepsRows(init);
      InsertKeepsRows(SortGroups(init), last);
      assert s[..|s| - 1] == init;
    }
  }

  lemma KindOfPermutation(s: seq<Group>, t: seq<Group>, str: bool)
    requires multiset(s) == multiset(t) && KindIs(s, str)
    ensures KindIs(t, str)
  {
    forall i | 0 <= i < |t|
      ensures t[i].key.Str? == str
    {
      assert t[i] in multiset(t);
    }
  }

  /** Every key of s is at most k. */
  predicate AllBelow(s: seq<Group>, k: Key) {
    forall i :: 0 <= i < |s| ==> Cmp(s[i].key, k) <= 0
  }

  lemma SortedSnoc(s: seq<Group>, g: Group)
    requires Sorted(s) && AllBelow(s, g.key)
    ensures Sorted(s + [g])
  {
    var r := s + [g];
    forall i, j | 0 <= i < j < |r|
      ensures Cmp(r[i].key, r[j].key) <= 0
    {
      if j == |s| {
        assert r[i] == s[i];
      } else {
        assert r[i] == s[i] && r[j] == s[j];
      }
    }
  }

  lemma {:induction false} InsertBelow(s: seq<Group>, g: Group, k: Key)
    requires AllBelow(s, k) && Cmp(g.key, k) <= 0
    ensures AllBelow(Insert(s, g), k)
    decreases |s|
  {
    if s != [] && Cmp(s[|s| - 1].key, g.key) > 0 {
      var init := s[..|s| - 1];
      assert AllBelow(init, k) by {
        forall i | 0 <= i < |init|
          ensures Cmp(init[i].key, k) <= 0
        {
          assert init[i] == s[i];
        }
      }
      InsertBelow(init, g, k);
      var r := Insert(init, g);
      assert forall i :: 0 <= i < |r| ==> (r + [s[|s| - 1]])[i] == r[i];
    } else if s != [] {
      assert forall i :: 0 <= i < |s| ==> (s + [g])[i] == s[i];
    }
  }

  lemma SortedPrefix(s: seq<Group>)
    requires Sorted(s) && s != []
    ensures Sorted(s[..|s| - 1]) && AllBelow(s[..|s| - 1], s[|s| - 1].key)
  {
    var init := s[..|s| - 1];
    forall i | 0 <= i < |init|
      ensures Cmp(init[i].key, s[|s| - 1].key) <= 0
    {
      assert init[i] == s[i];
    }
  }

  lemma {:induction false} InsertSorted(s: seq<Group>, g: Group, str: bool)
    requires Sorted(s) && KindIs(s, str) && g.key.Str? == str
    ensures Sorted(Insert(s, g))
    decreases |s|
  {
    if s == [] {
      return;
    }
    var init, last := s[..|s| - 1], s[|s| - 1];
    SortedPrefix(s);
    if Cmp(last.key, g.key) > 0 {
      assert KindIs(init, str);
      InsertSorted(init, g, str);
      CmpAntisymmetric(last.key, g.key);
      InsertBelow(init, g, last.key);
      SortedSnoc(Insert(init, g), last);
    } else {
      forall i | 0 <= i < |s|
        ensures Cmp(s[i].key, g.key) <= 0
      {
        if i < |s| - 1 {
          assert Cmp(init[i].key, last.key) <= 0;
          CmpTransitive(s[i].key, last.key, g.key);
        }
      }
      SortedSnoc(s, g);
    }
  }

  /** For a column of one kind the records come out with non-decreasing keys. */
  lemma {:induction false} SortGroupsSorted(s: seq<Group>)
    requires OneKind(s)
    ensures Sorted(SortGroups(s))
    decreases |s|
  {
    if s != [] {
      var init, last := s[..|s| - 1], s[|s| - 1];
      var str := last.key.Str?;
      assert KindIs(s, str);
      assert KindIs(init, str);
      SortGroupsSorted(init);
      SortGroupsPermutes(init);
      KindOfPermutation(init, SortGroups(init), str);
      InsertSorted(SortGroups(init), last, str);
    }
  }

  /** Two keys of one kind that both tie with k tie with each other. */
  lemma TieTransitive(a: Key, b: Key, k: Key)
    requires SameKind(a, k) && SameKind(b, k)
    requires Cmp(a, k) == 0 && Cmp(b, k) == 0
    ensures Cmp(a, b) == 0
  {
    CmpAntisymmetric(b, k);
    CmpAntisymmetric(a, b);
    CmpTransitive(a, k, b);
    CmpTransitive(b, k, a);
  }

  lemma ClassSnoc(s: seq<Group>, g: Group, k: Key)
    ensures Class(s + [g], k) == Class(s, k) + Class([g], k)
  {
    assert (s + [g])[..|s|] == s;
    assert [g][..0] == [];
  }

  lemma ClassSingle(g: Group, k: Key)
    ensures Class([g], k) == if Cmp(g.key, k) == 0 then [g] else []
  {
    assert [g][..0] == [];
  }

  /** Of two keys of k's kind, one above the other, at most one ties with k. */
  lemma NotBothTie(a: Key, b: Key, k: Key)
    requires SameKind(a, k) && SameKind(b, k) && Cmp(b, a) > 0
    ensures Cmp(a, k) != 0 || Cmp(b, k) != 0
  {
    if Cmp(a, k) == 0 && Cmp(b, k) == 0 {
      TieTransitive(b, a, k);
    }
  }

  lemma SwapWithEmpty(x: seq<Group>, y: seq<Group>)
    requires x == [] || y == []
    ensures x + y == y + x
  {
    if x == [] {
      assert x + y == y == y + x;
    } else {
      assert x + y == x == y + x;
    }
  }

  /** A record that is greater than g cannot tie with k together with g. */
  lemma TieSwap(g: Group, last: Group, k: Key)
    requires g.key.Str? == k.Str? && last.key.Str? == k.Str? && Cmp(last.key, g.key) > 0
    ensures Class([g], k) + Class([last], k) == Class([last], k) + Class([g], k)
  {
    ClassSingle(g, k);
    ClassSingle(last, k);
    NotBothTie(g.key, last.key, k);
    SwapWithEmpty(Class([g], k), Class([last], k));
  }

  lemma {:induction false} InsertClass(s: seq<Group>, g: Group, k: Key)
    requires KindIs(s, k.Str?) && g.key.Str? == k.Str?
    ensures Class(Insert(s, g), k) == Class(s, k) + Class([g], k)
    decreases |s|
  {
    if s == [] {
      assert Insert(s, g) == [g];
      return;
    }
    var init, last := s[..|s| - 1], s[|s| - 1];
    if Cmp(last.key, g.key) > 0 {
      var ci, cg, cl := Class(init, k), Class([g], k), Class([last], k);
      calc {
        Class(Insert(s, g), k);
        Class(Insert(init, g) + [last], k);
        { ClassSnoc(Insert(init, g), last, k); }
        Class(Insert(init, g), k) + cl;
        { assert KindIs(init, k.Str?); InsertClass(init, g, k); }
        ci + cg + cl;
        ci + (cg + cl);
        { TieSwap(g, last, k); }
        ci + (cl + cg);
        ci + cl + cg;
        { ClassSingle(last, k); }
        Class(s, k) + cg;
      }
    } else {
      ClassSnoc(s, g, k);
    }
  }

  /**
   * Sorting is stable: for every key of the column's kind, the records that
   * tie with it keep their relative order.
   */
  lemma {:induction false} SortGroupsStable(s: seq<Group>, k: Key)
    requires KindIs(s, k.Str?)
    ensures Class(SortGroups(s), k) == Class(s, k)
    decreases |s|
  {
    if s != [] {
      var init, last := s[..|s| - 1], s[|s| - 1];
      var sortedInit := SortGroups(init);
      calc {
        Class(SortGroups(s), k);
        Class(Insert(sortedInit, last), k);
        { assert KindIs(init, k.Str?);
          SortGroupsPermutes(init);
          KindOfPermutation(init, sortedInit, k.Str?);
          InsertClass(sortedInit, last, k); }
        Class(sortedInit, k) + Class([last], k);
        { assert KindIs(init, k.Str?); SortGroupsStable(init, k); }
        Class(init, k) + Class([last], k);
        { ClassSingle(last, k); }
        Class(s, k);
      }
    }
  }

  lemma {:induction false} ClassMembers(s: seq<Group>, k: Key)
    ensures forall g :: g in Class(s, k) <==> g in s && Cmp(g.key, k) == 0
    decreases |s|
  {
    if s != [] {
      ClassMembers(s[..|s| - 1], k);
      assert s == s[..|s| - 1] + [s[|s| - 1]];
    }
  }

  lemma CmpReflexive(a: Key)
    ensures Cmp(a, a) == 0
  {
    CmpAntisymmetric(a, a);
  }

  lemma LastIsMax(s: seq<Group>, g: Group)
    requires Sorted(s) && g in s
    ensures Cmp(g.key, s[|s| - 1].key) <= 0
  {
    var i :| 0 <= i < |s| && s[i] == g;
    if i < |s| - 1 {
      assert Cmp(s[i].key, s[|s| - 1].key) <= 0;
    } else {
      CmpReflexive(g.key);
    }
  }

  /** A record lies in its own tie class, so two sequences whose classes agree hold the same records. */
  lemma InOther(a: seq<Group>, b: seq<Group>, g: Group)
    requires g in a && Class(a, g.key) == Class(b, g.key)
    ensures g in b
  {
    CmpReflexive(g.key);
    ClassMembers(a, g.key);
    ClassMembers(b, g.key);
  }

  lemma ClassLast(s: seq<Group>, k: Key)
    requires s != [] && Cmp(s[|s| - 1].key, k) == 0
    ensures Class(s, k) == Class(s[..|s| - 1], k) + [s[|s| - 1]]
  {
  }

  lemma CancelSuffix(p: seq<Group>, q: seq<Group>, c: seq<Group>)
    requires p + c == q + c
    ensures p == q
  {
    assert |p| == |q|;
    assert p == (p + c)[..|p|];
    assert q == (q + c)[..|q|];
  }

  /** Two sorted sequences of one kind whose tie classes agree end with the same record. */
  lemma SameLast(a: seq<Group>, b: seq<Group>, str: bool)
    requires a != [] && b != []
    requires KindIs(a, str) && KindIs(b, str) && Sorted(a) && Sorted(b)
    requires forall k: Key :: k.Str? == str ==> Class(a, k) == Class(b, k)
    ensures a[|a| - 1] == b[|b| - 1]
  {
    var x, y := a[|a| - 1], b[|b| - 1];
    assert Class(a, x.key) == Class(b, x.key);
    assert Class(b, y.key) == Class(a, y.key);
    InOther(a, b, x);
    InOther(b, a, y);
    LastIsMax(b, x);
    LastIsMax(a, y);
    CmpAntisymmetric(x.key, y.key);
    CmpReflexive(x.key);
    ClassLast(a, x.key);
    ClassLast(b, x.key);
    var ca := Class(a, x.key);
    assert ca[|ca| - 1] == x && ca[|ca| - 1] == y;
  }

  /** Removing the same last record from both sides keeps the tie classes in agreement. */
  lemma PrefixClassesAgree(a: seq<Group>, b: seq<Group>, str: bool)
    requires a != [] && b != [] && a[|a| - 1] == b[|b| - 1]
    requires forall k: Key :: k.Str? == str ==> Class(a, k) == Class(b, k)
    ensures forall k: Key :: k.Str? == str ==> Class(a[..|a| - 1], k) == Class(b[..|b| - 1], k)
  {
    var x := a[|a| - 1];
    forall k: Key | k.Str? == str
      ensures Class(a[..|a| - 1], k) == Class(b[..|b| - 1], k)
    {
      var tail := if Cmp(x.key, k) == 0 then [x] else [];
      assert Class(a, k) == Class(a[..|a| - 1], k) + tail;
      assert Class(b, k) == Class(b[..|b| - 1], k) + tail;
      CancelSuffix(Class(a[..|a| - 1], k), Class(b[..|b| - 1], k), tail);
    }
  }

  /** a and b are sorted, of one kind, and agree on every tie class of that kind. */
  ghost predicate SortedAlike(a: seq<Group>, b: seq<Group>, str: bool) {
    && KindIs(a, str) && KindIs(b, str) && Sorted(a) && Sorted(b)
    && forall k: Key :: k.Str? == str ==> Class(a, k) == Class(b, k)
  }

  lemma KindPrefix(s: seq<Group>, str: bool)
    requires KindIs(s, str) && s != []
    ensures KindIs(s[..|s| - 1], str)
  {
  }

  /** Dropping the last record of two such sequences leaves two such sequences. */
  lemma ShrinkBoth(a: seq<Group>, b: seq<Group>, str: bool)
    requires a != [] && b != [] && SortedAlike(a, b, str)
    ensures a[|a| - 1] == b[|b| - 1]
    ensures SortedAlike(a[..|a| - 1], b[..|b| - 1], str)
  {
    SameLast(a, b, str);
    PrefixClassesAgree(a, b, str);
    SortedPrefix(a);
    SortedPrefix(b);
    KindPrefix(a, str);
    KindPrefix(b, str);
  }

  /** If one of them is empty, so is the other: every record lies in its own tie class. */
  lemma EmptyAlike(a: seq<Group>, b: seq<Group>, str: bool)
    requires SortedAlike(a, b, str) && (a == [] || b == [])
    ensures a == b
  {
    if a != [] {
      InOther(a, b, a[0]);
    } else if b != [] {
      InOther(b, a, b[0]);
    }
  }

  /** Two sorted sequences of one kind whose tie classes agree are equal. */
  lemma {:induction false} SortedClassesDetermine(a: seq<Group>, b: seq<Group>, str: bool)
    requires SortedAlike(a, b, str)
    ensures a == b
    decreases |a| + |b|
  {
    if a == [] || b == [] {
      EmptyAlike(a, b, str);
    } else {
      ShrinkBoth(a, b, str);
      SortedClassesDetermine(a[..|a| - 1], b[..|b| - 1], str);
      calc {
        a;
        a[..|a| - 1] + [a[|a| - 1]];
        b[..|b| - 1] + [b[|b| - 1]];
        b;
      }
    }
  }

  /**
   * Every stable sort agrees with SortGroups on a column of one kind: a sorted
   * permutation that keeps the order within every tie class is SortGroups(s).
   */
  lemma SortGroupsUnique(s: seq<Group>, t: seq<Group>)
    requires OneKind(s) && s != []
    requires multiset(t) == multiset(s) && Sorted(t)
    requires forall k: Key :: k.Str? == s[0].key.Str? ==> Class(t, k) == Class(s, k)
    ensures t == SortGroups(s)
  {
    var str := s[0].key.Str?;
    assert KindIs(s, str);
    KindOfPermutation(s, t, str);
    SortGroupsPermutes(s);
    KindOfPermutation(s, SortGroups(s), str);
    SortGroupsSorted(s);
    forall k: Key | k.Str? == str
      ensures Class(SortGroups(s), k) == Class(t, k)
    {
      SortGroupsStable(s, k);
    }
    SortedClassesDetermine(SortGroups(s), t, str);
  }

  lemma SortGroupsSnoc(s: seq<Group>, i: nat)
    requires i < |s|
    ensures SortGroups(s[..i + 1]) == Insert(SortGroups(s[..i]), s[i])
  {
    assert s[..i + 1][..i] == s[..i];
  }

  /**
   * Insert puts x after the records up to j and before the later ones, all
   * greater than x.
   */
  lemma {:induction false} InsertSplit(sorted: seq<Group>, x: Group, j: nat)
    requires j <= |sorted| && (j == 0 || Cmp(sorted[j - 1].key, x.key) <= 0)
    requires forall k :: j <= k < |sorted| ==> Cmp(sorted[k].key, x.key) > 0
    ensures Insert(sorted, x) == sorted[..j] + [x] + sorted[j..]
    decreases |sorted|
  {
    if j < |sorted| {
      var init, last := sorted[..|sorted| - 1], sorted[|sorted| - 1];
      calc {
        Insert(sorted, x);
        Insert(init, x) + [last];
        { InsertSplit(init, x, j); }
        init[..j] + [x] + init[j..] + [last];
        { assert init[..j] == sorted[..j] && init[j..] + [last] == sorted[j..]; }
        sorted[..j] + [x] + sorted[j..];
      }
    } else {
      assert sorted[..j] == sorted && sorted[j..] == [];
    }
  }

  /** A sequence that holds sorted[..j], then x, then sorted[j..], element by element. */
  lemma Assemble(b: seq<Group>, sorted: seq<Group>, x: Group, j: nat)
    requires |b| == |sorted| + 1 && j <= |sorted| && b[j] == x
    requires forall k :: 0 <= k < j ==> b[k] == sorted[k]
    requires forall k :: j < k < |b| ==> b[k] == sorted[k - 1]
    ensures b == sorted[..j] + [x] + sorted[j..]
  {
    var c := sorted[..j] + [x] + sorted[j..];
    forall k | 0 <= k < |b|
      ensures b[k] == c[k]
    {
      if k > j {
        assert c[k] == sorted[j..][k - j - 1];
      }
    }
  }

  /** The inner loop of the insertion sort: slide a[i] down past the greater records before it. */
  method InsertAt(a: array<Group>, i: nat)
    requires i < a.Length
    modifies a
    ensures a[..i + 1] == Insert(old(a[..i]), old(a[i]))
    ensures forall k :: i < k < a.Length ==> a[k] == old(a[k])
  {
    ghost var sorted := a[..i];
    var x := a[i];
    var j := i;
    while j > 0 && Cmp(a[j - 1].key, x.key) > 0
      invariant 0 <= j <= i
      invariant forall k :: 0 <= k < j ==> a[k] == sorted[k]
      invariant forall k :: j < k <= i ==> a[k] == sorted[k - 1]
      invariant forall k :: j <= k < i ==> Cmp(sorted[k].key, x.key) > 0
      invariant forall k :: i < k < a.Length ==> a[k] == old(a[k])
    {
      a[j] := a[j - 1];
      j := j - 1;
    }
    a[j] := x;
    InsertSplit(sorted, x, j);
    Assemble(a[..i + 1], sorted, x, j);
  }

  /** Insertion sort of the records array in place. */
  method SortInPlace(a: array<Group>)
    modifies a
    ensures a[..] == SortGroups(old(a[..]))
  {
    ghost var orig := a[..];
    var i := 0;
    while i < a.Length
      invariant 0 <= i <= a.Length
      invariant a[..i] == SortGroups(orig[..i])
      invariant forall k :: i <= k < a.Length ==> a[k] == orig[k]
    {
      InsertAt(a, i);
      SortGroupsSnoc(orig, i);
      i := i + 1;
    }
    assert a[..] == a[..a.Length];
    assert orig[..a.Length] == orig;
  }
}
