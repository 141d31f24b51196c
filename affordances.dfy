/**
 * One kind's affordances (`td.properties`, `td.actions` or `td.events`): a
 * JavaScript object, modelled as its entries in insertion order. Keys of a
 * JavaScript object are distinct, which `DistinctNames` states.
 */
module Affordances {
  import opened Wrappers
  import opened Text

  /**
   * An affordance definition. The panel reads only its optional `title`;
   * every other member of the object is kept, opaquely, in `fields`.
   */
  datatype Definition = Definition(title: Option<string>, fields: map<string, string>)

  /** One `name: definition` member of a kind's object. */
  datatype Entry = Entry(name: string, def: Definition)

  predicate HasName(es: seq<Entry>, n: string)
  {
    exists i :: 0 <= i < |es| && es[i].name == n
  }

  predicate DistinctNames(es: seq<Entry>)
  {
    forall i, j :: 0 <= i < j < |es| ==> es[i].name != es[j].name
  }

  /** `obj[n]`: the definition stored under `n`, or `None` for `undefined`. */
  function Lookup(es: seq<Entry>, n: string): (r: Option<Definition>)
    ensures r.None? <==> !HasName(es, n)
    ensures r.Some? ==> Entry(n, r.value) in es
  {
    if es == [] then None
    else if es[0].name == n then Some(es[0].def)
    else Lookup(es[1..], n)
  }

  /** In an object, each member is what looking up its own name gives. */
  lemma {:induction false} LookupMember(es: seq<Entry>, i: nat)
    requires DistinctNames(es)
    requires i < |es|
    ensures Lookup(es, es[i].name) == Some(es[i].def)
  {
    if i > 0 {
      LookupMember(es[1..], i - 1);
    }
  }

  /** Looking up a member's name gives that member's definition. */
  lemma LookupOfMember(es: seq<Entry>, e: Entry)
    requires DistinctNames(es) && e in es
    ensures Lookup(es, e.name) == Some(e.def)
  {
    var j :| 0 <= j < |es| && es[j] == e;
    LookupMember(es, j);
  }

  /**
   * `obj[n] = d`: an existing member named `n` is replaced where it stands;
   * otherwise a member is appended, as a new key goes last in a JavaScript
   * object's insertion order.
   */
  function Upsert(es: seq<Entry>, n: string, d: Definition): seq<Entry>
  {
    if es == [] then [Entry(n, d)]
    else if es[0].name == n then [Entry(n, d)] + es[1..]
    else [es[0]] + Upsert(es[1..], n, d)
  }

  /** Past a first member with another name, `n` is present iff it is in the rest. */
  lemma HasNameTail(es: seq<Entry>, n: string)
    requires es != [] && es[0].name != n
    ensures HasName(es, n) <==> HasName(es[1..], n)
  {
    if HasName(es, n) {
      var i :| 0 <= i < |es| && es[i].name == n;
      assert es[1..][i - 1].name == n;
    }
    if HasName(es[1..], n) {
      var i :| 0 <= i < |es[1..]| && es[1..][i].name == n;
      assert es[i + 1].name == n;
    }
  }

  /** Assigning an existing name replaces that member in place; nothing else moves. */
  lemma {:induction false} UpsertReplaces(es: seq<Entry>, n: string, d: Definition)
    requires DistinctNames(es) && HasName(es, n)
    ensures |Upsert(es, n, d)| == |es|
    ensures forall i :: 0 <= i < |es| ==>
      Upsert(es, n, d)[i] == (if es[i].name == n then Entry(n, d) else es[i])
  {
    if es[0].name != n {
      HasNameTail(es, n);
      UpsertReplaces(es[1..], n, d);
    }
  }

  /** Assigning a new name appends a member at the end. */
  lemma {:induction false} UpsertAppends(es: seq<Entry>, n: string, d: Definition)
    requires !HasName(es, n)
    ensures Upsert(es, n, d) == es + [Entry(n, d)]
  {
    if es != [] {
      assert es[0].name != n;
      HasNameTail(es, n);
      UpsertAppends(es[1..], n, d);
    }
  }

  /** The names after an assignment are the old names and `n`. */
  lemma {:induction false} UpsertNames(es: seq<Entry>, n: string, d: Definition, e: Entry)
    requires e in Upsert(es, n, d)
    ensures e == Entry(n, d) || e in es
  {
    if es != [] && es[0].name != n && e != es[0] {
      UpsertNames(es[1..], n, d, e);
    }
  }

  /** The assignment keeps the member names distinct. */
  lemma {:induction false} UpsertDistinct(es: seq<Entry>, n: string, d: Definition)
    requires DistinctNames(es)
    ensures DistinctNames(Upsert(es, n, d))
  {
    if es != [] && es[0].name != n {
      UpsertDistinct(es[1..], n, d);
      var rest := Upsert(es[1..], n, d);
      forall i | 0 <= i < |rest|
        ensures rest[i].name != es[0].name
      {
        UpsertNames(es[1..], n, d, rest[i]);
      }
      assert Upsert(es, n, d) == [es[0]] + rest;
    }
  }

  /**
   * After `obj[n] = d`, `n` maps to `d` and every other name maps to what it
   * mapped to before.
   */
  lemma {:induction false} UpsertLookup(es: seq<Entry>, n: string, d: Definition, m: string)
    ensures Lookup(Upsert(es, n, d), m) == if m == n then Some(d) else Lookup(es, m)
  {
    if es != [] && es[0].name != n {
      UpsertLookup(es[1..], n, d, m);
    }
  }

  /** `UpsertLookup` for every name at once. */
  lemma UpsertLookupAll(es: seq<Entry>, n: string, d: Definition)
    ensures Lookup(Upsert(es, n, d), n) == Some(d)
    ensures forall m :: m != n ==> Lookup(Upsert(es, n, d), m) == Lookup(es, m)
  {
    UpsertLookup(es, n, d, n);
    forall m | m != n
      ensures Lookup(Upsert(es, n, d), m) == Lookup(es, m)
    {
      UpsertLookup(es, n, d, m);
    }
  }

  /**
   * The filter of `applyFilter`: a name is kept when its lower-cased form
   * contains the lower-cased filter text.
   */
  predicate NameMatches(name: string, filter: string)
  {
    IndexOf(Lower(name), Lower(filter)) > -1
  }

  /** `s` is `t` with some elements removed, the rest kept in order. */
  predicate IsSubsequence<T(==)>(s: seq<T>, t: seq<T>)
    decreases |t|
  {
    s == [] || (t != [] && if s[0] == t[0] then IsSubsequence(s[1..], t[1..]) else IsSubsequence(s, t[1..]))
  }

  /**
   * The members whose name contains `filter`, ignoring case, in the order
   * of `es`, each with its own definition.
   */
  function FilterByName(es: seq<Entry>, filter: string): (r: seq<Entry>)
    ensures forall e :: e in r <==> e in es && Contains(Lower(e.name), Lower(filter))
    ensures IsSubsequence(r, es)
  {
    if es == [] then []
    else if NameMatches(es[0].name, filter) then [es[0]] + FilterByName(es[1..], filter)
    else FilterByName(es[1..], filter)
  }

  /** Filtering by an empty text keeps every member. */
  lemma {:induction false} FilterEmptyKeepsAll(es: seq<Entry>)
    ensures FilterByName(es, "") == es
  {
    if es != [] {
      EmptyIsFoundFirst(Lower(es[0].name));
      assert Lower("") == "";
      FilterEmptyKeepsAll(es[1..]);
    }
  }

  /** Filtering keeps the member names distinct. */
  lemma {:induction false} FilterKeepsDistinct(es: seq<Entry>, filter: string)
    requires DistinctNames(es)
    ensures DistinctNames(FilterByName(es, filter))
  {
    if es != [] {
      FilterKeepsDistinct(es[1..], filter);
      var rest := FilterByName(es[1..], filter);
      forall e | e in rest
        ensures e.name != es[0].name
      {
        assert e in es[1..];
      }
    }
  }
}
