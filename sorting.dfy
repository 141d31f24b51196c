/**
 * The ordering of `sortKeysInObject`: `Array.prototype.sort` with the
 * comparator "title if truthy, else name", compared by `localeCompare`.
 * The sort is stable (required since ECMAScript 2019); `SortByKey` is a
 * stable insertion sort standing for it.
 */
module Sorting {
  import opened Wrappers
  import opened Text
  import opened Affordances

  /** `a.title ? a.title : a.key`: a non-empty title, otherwise the name. */
  function SortKey(e: Entry): string
  {
    if e.def.title.Some? && e.def.title.value != "" then e.def.title.value else e.name
  }

  /** Non-decreasing by sort key. */
  predicate SortedByKey(s: seq<Entry>)
  {
    forall i, j :: 0 <= i < j < |s| ==> LexLe(SortKey(s[i]), SortKey(s[j]))
  }

  /** Non-increasing by sort key. */
  predicate SortedByKeyDescending(s: seq<Entry>)
  {
    forall i, j :: 0 <= i < j < |s| ==> LexLe(SortKey(s[j]), SortKey(s[i]))
  }

  /** The members of `s` whose sort key is `k`, in their order in `s`. */
  function OfKey(s: seq<Entry>, k: string): seq<Entry>
  {
    if s == [] then [] else (if SortKey(s[0]) == k then [s[0]] else []) + OfKey(s[1..], k)
  }

  /** `s` reversed, as `Array.prototype.reverse` leaves it. */
  function Reverse<T>(s: seq<T>): (r: seq<T>)
    ensures |r| == |s|
    ensures forall i :: 0 <= i < |s| ==> r[i] == s[|s| - 1 - i]
  {
    if s == [] then [] else Reverse(s[1..]) + [s[0]]
  }

  /**
   * Places `x` after every member of `t` whose key is not greater than its
   * own, so that it follows the members it ties with.
   */
  function Insert(x: Entry, t: seq<Entry>): seq<Entry>
  {
    if t == [] then [x]
    else if !LexLe(SortKey(t[0]), SortKey(x)) then [x] + t
    else [t[0]] + Insert(x, t[1..])
  }

  /** The ascending order `toSort.sort(comparator)` produces. */
  function SortByKey(s: seq<Entry>): seq<Entry>
  {
    if s == [] then [] else Insert(s[|s| - 1], SortByKey(s[..|s| - 1]))
  }

  lemma ConsPermutation(y: Entry, a: seq<Entry>, b: seq<Entry>, x: Entry)
    requires multiset(a) == multiset(b) + multiset{x}
    ensures multiset([y] + a) == multiset([y] + b) + multiset{x}
  {
  }

  lemma {:induction false} InsertPermutation(x: Entry, t: seq<Entry>)
    ensures multiset(Insert(x, t)) == multiset(t) + multiset{x}
  {
    if t != [] && LexLe(SortKey(t[0]), SortKey(x)) {
      InsertPermutation(x, t[1..]);
      ConsPermutation(t[0], Insert(x, t[1..]), t[1..], x);
      assert t == [t[0]] + t[1..];
    }
  }

  /**
   * The sorted members are those of the kind, each with its own
   * definition, only reordered.
   */
  lemma {:induction false} SortByKeyPermutation(s: seq<Entry>)
    ensures multiset(SortByKey(s)) == multiset(s)
  {
    if s != [] {
      var p, last := s[..|s| - 1], s[|s| - 1];
      SortByKeyPermutation(p);
      InsertPermutation(last, SortByKey(p));
      assert s == p + [last];
    }
  }

  /** Every member of `Insert(x, t)` is `x` or a member of `t`. */
  lemma InsertMembers(x: Entry, t: seq<Entry>, e: Entry)
    requires e in Insert(x, t)
    ensures e == x || e in t
  {
    InsertPermutation(x, t);
    assert e in multiset(Insert(x, t));
  }

  lemma {:induction false} InsertSorted(x: Entry, t: seq<Entry>)
    requires SortedByKey(t)
    ensures SortedByKey(Insert(x, t))
  {
    if t == [] {
    } else if !LexLe(SortKey(t[0]), SortKey(x)) {
      LexLeTotal(SortKey(t[0]), SortKey(x));
      forall j | 0 <= j < |t|
        ensures LexLe(SortKey(x), SortKey(t[j]))
      {
        if j > 0 {
          LexLeTransitive(SortKey(x), SortKey(t[0]), SortKey(t[j]));
        }
      }
    } else {
      InsertSorted(x, t[1..]);
      var r := Insert(x, t[1..]);
      forall j | 0 <= j < |r|
        ensures LexLe(SortKey(t[0]), SortKey(r[j]))
      {
        InsertMembers(x, t[1..], r[j]);
      }
    }
  }

  /** The ascending result is ordered by "title if truthy, else name". */
  lemma {:induction false} SortByKeySorted(s: seq<Entry>)
    ensures SortedByKey(SortByKey(s))
  {
    if s != [] {
      SortByKeySorted(s[..|s| - 1]);
      InsertSorted(s[|s| - 1], SortByKey(s[..|s| - 1]));
    }
  }

  lemma {:induction false} OfKeyAppend(s: seq<Entry>, x: Entry, k: string)
    ensures OfKey(s + [x], k) == OfKey(s, k) + (if SortKey(x) == k then [x] else [])
  {
    if s != [] {
      assert (s + [x])[1..] == s[1..] + [x];
      OfKeyAppend(s[1..], x, k);
    }
  }

  /** No member of a sorted `t` has a key below that of its first member. */
  lemma {:induction false} OfKeyBelowFirst(t: seq<Entry>, k: string)
    requires SortedByKey(t) && t != []
    requires !LexLe(SortKey(t[0]), k)
    ensures OfKey(t, k) == []
  {
    LexLeReflexive(k);
    if |t| > 1 {
      assert SortedByKey(t[1..]) && t[1..][0] == t[1];
      if LexLe(SortKey(t[1]), k) {
        LexLeTransitive(SortKey(t[0]), SortKey(t[1]), k);
      }
      OfKeyBelowFirst(t[1..], k);
    }
  }

  lemma OfKeyCons(y: Entry, t: seq<Entry>, k: string)
    ensures OfKey([y] + t, k) == (if SortKey(y) == k then [y] else []) + OfKey(t, k)
  {
    assert ([y] + t)[1..] == t;
  }

  /** Putting the same member in front of two sequences keeps a suffix relation on their `OfKey`. */
  lemma OfKeyPrepend(y: Entry, a: seq<Entry>, b: seq<Entry>, k: string, tail: seq<Entry>)
    requires OfKey(b, k) == OfKey(a, k) + tail
    ensures OfKey([y] + b, k) == OfKey([y] + a, k) + tail
  {
    var h := if SortKey(y) == k then [y] else [];
    OfKeyCons(y, a, k);
    OfKeyCons(y, b, k);
    assert h + (OfKey(a, k) + tail) == (h + OfKey(a, k)) + tail;
  }

  /** `x` goes in front of a sorted `t` whose first key is above its own. */
  lemma InsertOfKeyFront(x: Entry, t: seq<Entry>, k: string)
    requires SortedByKey(t) && t != [] && !LexLe(SortKey(t[0]), SortKey(x))
    ensures OfKey(Insert(x, t), k) == OfKey(t, k) + (if SortKey(x) == k then [x] else [])
  {
    assert Insert(x, t) == [x] + t;
    OfKeyCons(x, t, k);
    if SortKey(x) == k {
      OfKeyBelowFirst(t, k);
    }
  }

  lemma SortedTail(t: seq<Entry>)
    requires SortedByKey(t) && t != []
    ensures SortedByKey(t[1..])
  {
    forall i, j | 0 <= i < j < |t| - 1
      ensures LexLe(SortKey(t[1..][i]), SortKey(t[1..][j]))
    {
      assert t[1..][i] == t[i + 1] && t[1..][j] == t[j + 1];
    }
  }

  lemma {:induction false} InsertOfKey(x: Entry, t: seq<Entry>, k: string)
    requires SortedByKey(t)
    ensures OfKey(Insert(x, t), k) == OfKey(t, k) + (if SortKey(x) == k then [x] else [])
  {
    if t == [] {
      OfKeyCons(x, [], k);
    } else if !LexLe(SortKey(t[0]), SortKey(x)) {
      InsertOfKeyFront(x, t, k);
    } else {
      SortedTail(t);
      InsertOfKey(x, t[1..], k);
      OfKeyPrepend(t[0], t[1..], Insert(x, t[1..]), k, if SortKey(x) == k then [x] else []);
      assert [t[0]] + t[1..] == t;
    }
  }

  /**
   * Stability: for every key, the members with that key appear in the
   * sorted result in the same relative order as in the input.
   */
  lemma {:induction false} SortByKeyStable(s: seq<Entry>, k: string)
    ensures OfKey(SortByKey(s), k) == OfKey(s, k)
  {
    if s != [] {
      var p, last := s[..|s| - 1], s[|s| - 1];
      SortByKeyStable(p, k);
      SortByKeySorted(p);
      InsertOfKey(last, SortByKey(p), k);
      OfKeyAppend(p, last, k);
      assert s == p + [last];
    }
  }

  lemma {:induction false} InsertDistinct(x: Entry, t: seq<Entry>)
    requires DistinctNames(t) && !HasName(t, x.name)
    ensures DistinctNames(Insert(x, t))
  {
    if t != [] && LexLe(SortKey(t[0]), SortKey(x)) {
      forall i | 0 <= i < |t[1..]|
        ensures t[1..][i].name != x.name
      {
        assert t[1..][i] == t[i + 1];
      }
      InsertDistinct(x, t[1..]);
      var r := Insert(x, t[1..]);
      forall j | 0 <= j < |r|
        ensures r[j].name != t[0].name
      {
        InsertMembers(x, t[1..], r[j]);
      }
    }
  }

  /** Sorting reorders the members of an object without merging keys. */
  lemma {:induction false} SortByKeyDistinct(s: seq<Entry>)
    requires DistinctNames(s)
    ensures DistinctNames(SortByKey(s))
  {
    if s != [] {
      var p, last := s[..|s| - 1], s[|s| - 1];
      SortByKeyDistinct(p);
      SortByKeyPermutation(p);
      forall i | 0 <= i < |SortByKey(p)|
        ensures SortByKey(p)[i].name != last.name
      {
        assert SortByKey(p)[i] in multiset(SortByKey(p));
        var j :| 0 <= j < |p| && p[j] == SortByKey(p)[i];
        assert s[j] == p[j];
      }
      InsertDistinct(last, SortByKey(p));
    }
  }

  /** A sorted `t` whose keys are all at most `x`'s gets `x` at the end. */
  lemma {:induction false} InsertLast(x: Entry, t: seq<Entry>)
    requires forall i :: 0 <= i < |t| ==> LexLe(SortKey(t[i]), SortKey(x))
    ensures Insert(x, t) == t + [x]
  {
    if t != [] {
      InsertLast(x, t[1..]);
      assert t == [t[0]] + t[1..];
    }
  }

  /** Sorting an already sorted sequence leaves it as it is. */
  lemma {:induction false} SortByKeyOfSorted(s: seq<Entry>)
    requires SortedByKey(s)
    ensures SortByKey(s) == s
  {
    if s != [] {
      var p, last := s[..|s| - 1], s[|s| - 1];
      SortByKeyOfSorted(p);
      InsertLast(last, p);
      assert s == p + [last];
    }
  }

  /** The descending click: the ascending order, reversed, is non-increasing. */
  lemma DescendingSorted(s: seq<Entry>)
    ensures SortedByKeyDescending(Reverse(SortByKey(s)))
  {
    SortByKeySorted(s);
  }

  lemma ReverseConcat<T>(a: seq<T>, b: seq<T>)
    ensures Reverse(a + b) == Reverse(b) + Reverse(a)
  {
    var r, q := Reverse(a + b), Reverse(b) + Reverse(a);
    assert |r| == |q|;
    forall i | 0 <= i < |r|
      ensures r[i] == q[i]
    {
      if i < |b| {
        assert q[i] == Reverse(b)[i];
      } else {
        assert q[i] == Reverse(a)[i - |b|];
      }
    }
  }

  lemma {:induction false} OfKeyReverse(s: seq<Entry>, k: string)
    ensures OfKey(Reverse(s), k) == Reverse(OfKey(s, k))
  {
    if s != [] {
      var head := if SortKey(s[0]) == k then [s[0]] else [];
      OfKeyReverse(s[1..], k);
      OfKeyAppend(Reverse(s[1..]), s[0], k);
      assert Reverse(s) == Reverse(s[1..]) + [s[0]];
      assert OfKey(s, k) == head + OfKey(s[1..], k);
      ReverseConcat(head, OfKey(s[1..], k));
      assert Reverse(head) == head;
    }
  }

  /**
   * In the descending order the members that tie on their key come in the
   * reverse of their order in the input.
   */
  lemma DescendingTies(s: seq<Entry>, k: string)
    ensures OfKey(Reverse(SortByKey(s)), k) == Reverse(OfKey(s, k))
  {
    OfKeyReverse(SortByKey(s), k);
    SortByKeyStable(s, k);
  }

  lemma ReverseReverse<T>(s: seq<T>)
    ensures Reverse(Reverse(s)) == s
  {
  }

  /**
   * Two clicks from the ascending state: the first sorts ascending, the
   * second, sorting that result again and reversing it, gives exactly the
   * reverse of the first.
   */
  lemma SecondClickReversesFirst(s: seq<Entry>)
    ensures Reverse(SortByKey(SortByKey(s))) == Reverse(SortByKey(s))
    ensures Reverse(Reverse(SortByKey(SortByKey(s)))) == SortByKey(s)
  {
    SortByKeySorted(s);
    SortByKeyOfSorted(SortByKey(s));
    ReverseReverse(SortByKey(s));
  }

  /**
   * A third click does not restore the first ascending order: for every
   * key, the members that tie on it stay in the reversed order the second
   * click gave them.
   */
  lemma ThirdClickKeepsTiesReversed(s: seq<Entry>, k: string)
    ensures OfKey(SortByKey(Reverse(SortByKey(SortByKey(s)))), k)
         == OfKey(Reverse(SortByKey(SortByKey(s))), k)
    ensures OfKey(SortByKey(Reverse(SortByKey(SortByKey(s)))), k)
         == Reverse(OfKey(s, k))
  {
    SortByKeyStable(Reverse(SortByKey(SortByKey(s))), k);
    DescendingTies(SortByKey(s), k);
    SortByKeyStable(s, k);
  }
}
