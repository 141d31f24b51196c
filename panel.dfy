/**
 * The state-management core of `InteractionSection`: the parse-recovery
 * snapshots `td`/`oldTd`, the panel's filter text and sort direction, and
 * the reorder and add operations that commit the whole document back to
 * the editor. `commits` records each document handed to
 * `updateOfflineTD`, in order.
 */
module Panel {
  import opened Wrappers
  import opened Text
  import opened Affordances
  import opened Sorting
  import opened Documents

  datatype SortOrder = Asc | Desc

  /**
   * The kind's members in the order a sort click made in state `order`
   * leaves them: ascending by key, or exactly that order reversed. Either
   * way they are the same members, names still distinct.
   */
  function Reordered(es: seq<Entry>, order: SortOrder): (r: seq<Entry>)
    requires DistinctNames(es)
    ensures multiset(r) == multiset(es)
    ensures DistinctNames(r)
  {
    SortByKeyPermutation(es);
    SortByKeyDistinct(es);
    if order == Asc then SortByKey(es)
    else
      ReverseSameMultiset(SortByKey(es));
      ReverseDistinct(SortByKey(es));
      Reverse(SortByKey(es))
  }

  /**
   * After a click in the ascending state the kind is non-decreasing by key;
   * after one in the descending state it is non-increasing.
   */
  lemma ReorderedSorted(es: seq<Entry>, order: SortOrder)
    requires DistinctNames(es)
    ensures order == Asc ==> SortedByKey(Reordered(es, order))
    ensures order == Desc ==> SortedByKeyDescending(Reordered(es, order))
  {
    SortByKeySorted(es);
    DescendingSorted(es);
  }

  /**
   * The `forEach` over the sorted keys: each key's definition is read back
   * from the kind and assigned into a fresh object, which ends up holding
   * the members in `Reordered` order.
   */
  method OrderEntries(es: seq<Entry>, order: SortOrder) returns (ordered: seq<Entry>)
    requires DistinctNames(es)
    ensures ordered == Reordered(es, order)
  {
    var toSort := Reordered(es, order);
    ordered := [];
    var i := 0;
    while i < |toSort|
      invariant 0 <= i <= |toSort|
      invariant ordered == toSort[..i]
    {
      OrderStep(es, toSort, i);
      var key := toSort[i].name;
      ordered := Upsert(ordered, key, Lookup(es, key).value);
      i := i + 1;
    }
    assert toSort[..i] == toSort;
  }

  /**
   * One pass of the `forEach`: the next key's definition, read back from
   * the kind, is appended as a new member.
   */
  lemma OrderStep(es: seq<Entry>, toSort: seq<Entry>, i: nat)
    requires DistinctNames(es) && DistinctNames(toSort) && multiset(toSort) == multiset(es)
    requires i < |toSort|
    ensures Lookup(es, toSort[i].name) == Some(toSort[i].def)
    ensures DistinctNames(toSort[..i])
    ensures Upsert(toSort[..i], toSort[i].name, toSort[i].def) == toSort[..i + 1]
  {
    assert toSort[i] in multiset(es);
    LookupOfMember(es, toSort[i]);
    var prefix := toSort[..i];
    forall m | 0 <= m < i
      ensures prefix[m] == toSort[m] && prefix[m].name != toSort[i].name
    {
    }
    assert !HasName(prefix, toSort[i].name);
    UpsertAppends(prefix, toSort[i].name, toSort[i].def);
    assert toSort[..i + 1] == prefix + [toSort[i]];
  }

  lemma ReverseDistinct(s: seq<Entry>)
    requires DistinctNames(s)
    ensures DistinctNames(Reverse(s))
  {
    var r := Reverse(s);
    forall i, j | 0 <= i < j < |r|
      ensures r[i].name != r[j].name
    {
      assert r[i] == s[|s| - 1 - i] && r[j] == s[|s| - 1 - j];
    }
  }

  lemma {:induction false} ReverseSameMultiset<T>(s: seq<T>)
    ensures multiset(Reverse(s)) == multiset(s)
  {
    if s != [] {
      ReverseSameMultiset(s[1..]);
      assert s == [s[0]] + s[1..];
    }
  }

  class InteractionSection {
    /** The panel's kind, `props.interaction.toLowerCase()`. */
    const interaction: Kind
    /** The last document that parsed. */
    var td: Document
    /** The value `td` had before the latest render. */
    var oldTd: Document
    var sortOrder: SortOrder
    var filter: string
    ghost var commits: seq<Document>

    ghost predicate Valid()
      reads this
    {
      WellFormed(td) && WellFormed(oldTd)
    }

    /** A freshly mounted panel: empty snapshots, ascending, no filter. */
    constructor (interaction: Kind)
      ensures Valid()
      ensures this.interaction == interaction
      ensures td == Empty && oldTd == Empty
      ensures sortOrder == Asc && filter == "" && commits == []
    {
      this.interaction := interaction;
      td, oldTd := Empty, Empty;
      sortOrder, filter := Asc, "";
      commits := [];
    }

    /**
     * The recovery block run on every render, given what parsing the
     * editor's text gave (`None` when it threw).
     */
    method Reparse(parsed: Option<Document>)
      requires Valid()
      requires parsed.Some? ==> WellFormed(parsed.value)
      modifies this
      ensures Valid()
      ensures Snapshots(td, oldTd) == RecoveryStep(old(td), parsed)
      ensures oldTd == old(td)
      ensures parsed.Some? ==> td == parsed.value
      ensures parsed.None? ==> td == old(td) && oldTd == td
      ensures sortOrder == old(sortOrder) && filter == old(filter) && commits == old(commits)
    {
      oldTd := td;
      match parsed
      case Some(d) =>
        td := d;
      case None =>
        td := oldTd;
    }

    /** The search bar's key-up handler. */
    method UpdateFilter(value: string)
      modifies this`filter
      ensures filter == value
    {
      filter := value;
    }

    /**
     * `applyFilter`: nothing when the kind is absent; otherwise exactly the
     * members whose name contains the filter text, ignoring case, each with
     * its definition, in the kind's own order.
     */
    function ApplyFilter(): (r: Option<seq<Entry>>)
      reads this
      ensures r.None? <==> Get(td, interaction).None?
      ensures r.Some? ==>
        (forall e :: e in r.value <==> e in Get(td, interaction).value && Contains(Lower(e.name), Lower(filter))) &&
        IsSubsequence(r.value, Get(td, interaction).value)
    {
      match Get(td, interaction)
      case None => None
      case Some(es) => Some(FilterByName(es, filter))
    }

    /**
     * `sortKeysInObject(kind)`: with the kind absent nothing happens;
     * otherwise the kind is reordered (ascending, or the reverse of the
     * ascending order), the direction flips and the document is committed
     * once.
     */
    method SortKeysInObject(kind: Kind)
      requires Valid()
      modifies this
      ensures Valid()
      ensures oldTd == old(oldTd) && filter == old(filter)
      ensures Get(old(td), kind).None? ==>
        td == old(td) && sortOrder == old(sortOrder) && commits == old(commits)
      ensures Get(old(td), kind).Some? ==>
        td == With(old(td), kind, Reordered(Get(old(td), kind).value, old(sortOrder))) &&
        sortOrder == (if old(sortOrder) == Asc then Desc else Asc) &&
        commits == old(commits) + [td]
    {
      match Get(td, kind)
      case None =>
        return;
      case Some(es) =>
        var ordered := OrderEntries(es, sortOrder);
        WithWellFormed(td, kind, ordered);
        if sortOrder == Asc {
          sortOrder := Desc;
        } else {
          sortOrder := Asc;
        }
        td := With(td, kind, ordered);
        commits := commits + [td];
    }

    /**
     * `addSubfieldToExistingTD(kind, name, def)`: the kind is created when
     * absent, `name` is set to `def` (in place when present, appended when
     * new), and the document is committed once.
     */
    method AddSubfieldToExistingTD(kind: Kind, name: string, def: Definition)
      requires Valid()
      modifies this
      ensures Valid()
      ensures td == AddMember(old(td), kind, name, def)
      ensures oldTd == old(oldTd) && sortOrder == old(sortOrder) && filter == old(filter)
      ensures commits == old(commits) + [td]
    {
      if Get(td, kind).None? {
        WithWellFormed(td, kind, []);
        td := With(td, kind, []);
      }
      var es := Get(td, kind).value;
      WithTwice(old(td), kind, [], Upsert(es, name, def));
      td := With(td, kind, Upsert(es, name, def));
      assert td == AddMember(old(td), kind, name, def);
      commits := commits + [td];
    }

    /**
     * The add button: the creation dialog's result, `None` when cancelled.
     * A created definition is stored under its title; a cancelled one
     * changes nothing and commits nothing.
     */
    method OnClickAddInteraction(created: Option<Definition>)
      requires Valid()
      requires created.Some? ==> created.value.title.Some?
      modifies this
      ensures Valid()
      ensures created.None? ==> td == old(td) && commits == old(commits)
      ensures created.Some? ==>
        td == AddMember(old(td), interaction, created.value.title.value, created.value) &&
        commits == old(commits) + [td]
      ensures oldTd == old(oldTd) && sortOrder == old(sortOrder) && filter == old(filter)
    {
      if created.Some? {
        AddSubfieldToExistingTD(interaction, created.value.title.value, created.value);
      }
    }
  }
}
