/**
 * The parsed Thing Description as the panel sees it: three optional kinds
 * of affordances and, opaquely, every other top-level member.
 */
module Documents {
  import opened Wrappers
  import opened Affordances

  /** The `interaction` a panel is bound to, lower-cased. */
  datatype Kind = Properties | Actions | Events

  datatype Document = Document(
    properties: Option<seq<Entry>>,
    actions: Option<seq<Entry>>,
    events: Option<seq<Entry>>,
    others: map<string, string>)

  /** `{}`, the value the module-level snapshots start from. */
  const Empty: Document := Document(None, None, None, map[])

  /** `td[kind]`, `None` when that member is absent. */
  function Get(d: Document, k: Kind): Option<seq<Entry>>
  {
    match k
    case Properties => d.properties
    case Actions => d.actions
    case Events => d.events
  }

  /** `td[kind]`, or `{}` when it is absent. */
  function OrEmpty(o: Option<seq<Entry>>): seq<Entry>
  {
    if o.Some? then o.value else []
  }

  /** `td[kind] = es`: that kind is replaced and nothing else changes. */
  function With(d: Document, k: Kind, es: seq<Entry>): (r: Document)
    ensures Get(r, k) == Some(es)
    ensures forall j :: j != k ==> Get(r, j) == Get(d, j)
    ensures r.others == d.others
  {
    match k
    case Properties => d.(properties := Some(es))
    case Actions => d.(actions := Some(es))
    case Events => d.(events := Some(es))
  }

  /** A second assignment to the same kind overrides the first. */
  lemma WithTwice(d: Document, k: Kind, a: seq<Entry>, b: seq<Entry>)
    ensures With(With(d, k, a), k, b) == With(d, k, b)
  {
  }

  /** The top-level member name under which a kind is stored. */
  function KindName(k: Kind): string
  {
    match k
    case Properties => "properties"
    case Actions => "actions"
    case Events => "events"
  }

  /**
   * Every kind present is an object, so its member names are distinct, and
   * no kind's name is hidden among the other top-level members.
   */
  predicate WellFormed(d: Document)
  {
    && (forall k :: Get(d, k).Some? ==> DistinctNames(Get(d, k).value))
    && (forall k :: KindName(k) !in d.others)
  }

  /** Replacing one kind by an object keeps the document well formed. */
  lemma WithWellFormed(d: Document, k: Kind, es: seq<Entry>)
    requires WellFormed(d) && DistinctNames(es)
    ensures WellFormed(With(d, k, es))
  {
    forall j | Get(With(d, k, es), j).Some?
      ensures DistinctNames(Get(With(d, k, es), j).value)
    {
      if j != k {
        assert Get(With(d, k, es), j) == Get(d, j);
      }
    }
  }

  /**
   * `td[kind][name] = def` after `td[kind]` is created as `{}` when absent:
   * `name` maps to `def`, every other name of the kind keeps its
   * definition, and every other kind and member of the document is kept.
   */
  function AddMember(d: Document, k: Kind, name: string, def: Definition): (r: Document)
    requires WellFormed(d)
    ensures WellFormed(r)
    ensures Get(r, k).Some? && Lookup(Get(r, k).value, name) == Some(def)
    ensures forall m :: m != name ==> Lookup(Get(r, k).value, m) == Lookup(OrEmpty(Get(d, k)), m)
    ensures forall j :: j != k ==> Get(r, j) == Get(d, j)
    ensures r.others == d.others
  {
    var es := OrEmpty(Get(d, k));
    UpsertLookupAll(es, name, def);
    UpsertDistinct(es, name, def);
    WithWellFormed(d, k, Upsert(es, name, def));
    With(d, k, Upsert(es, name, def))
  }

  /** The two snapshots of the parse-recovery block. */
  datatype Snapshots = Snapshots(current: Document, previous: Document)

  /**
   * One render's recovery step: the old `td` moves to `oldTd`, and `td`
   * becomes the parse result, or stays the last good document when the text
   * does not parse.
   */
  function RecoveryStep(current: Document, parsed: Option<Document>): Snapshots
  {
    Snapshots(if parsed.Some? then parsed.value else current, current)
  }

  /** `td` after a run of renders whose parse results are `parses`. */
  function Replay(initial: Document, parses: seq<Option<Document>>): Document
  {
    if parses == [] then initial
    else RecoveryStep(Replay(initial, parses[..|parses| - 1]), parses[|parses| - 1]).current
  }

  /**
   * When parse `j` succeeded and every later one failed, `td` after the run
   * is the document parse `j` gave.
   */
  lemma {:induction false} ReplayIsLastSuccess(initial: Document, parses: seq<Option<Document>>, j: nat)
    requires j < |parses| && parses[j].Some?
    requires forall i :: j < i < |parses| ==> parses[i].None?
    ensures Replay(initial, parses) == parses[j].value
  {
    var n := |parses|;
    if j < n - 1 {
      var prefix := parses[..n - 1];
      assert prefix[j] == parses[j];
      forall i | j < i < n - 1
        ensures prefix[i].None?
      {
        assert prefix[i] == parses[i];
      }
      ReplayIsLastSuccess(initial, prefix, j);
    }
  }

  /**
   * When no parse succeeded, `td` after the run is still the initial
   * document: failed parses never leave an empty or partial document.
   */
  lemma {:induction false} ReplayWithoutSuccess(initial: Document, parses: seq<Option<Document>>)
    requires forall i :: 0 <= i < |parses| ==> parses[i].None?
    ensures Replay(initial, parses) == initial
  {
    if parses != [] {
      var prefix := parses[..|parses| - 1];
      assert parses[|parses| - 1].None?;
      forall i | 0 <= i < |prefix|
        ensures prefix[i].None?
      {
        assert prefix[i] == parses[i];
      }
      ReplayWithoutSuccess(initial, prefix);
    }
  }

  /** A valid text followed by an invalid one leaves the valid text's document. */
  lemma RollbackAfterBadText(initial: Document, first: Document)
    ensures Replay(initial, [Some(first), None]) == first
  {
    ReplayIsLastSuccess(initial, [Some(first), None], 0);
  }
}
