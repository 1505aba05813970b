/**
  Optimistic writes of an entry's row (pkg/metastore/sql.go, pkg/core/core.go). Cache slots, callers and
  transactions of any process read the row, change their copy and write it back later; the store accepts
  a copy only if the version in it is still the version of the row.
 */
module VersionProtocol {
  import opened Common
  import opened EntryTables
  import opened MetaStore

  /** The columns that matter here; `fields` stands for all that an update may change, such as the name. */
  datatype Copy = Copy(version: int, refCount: int, fields: string)

  datatype State = State(row: Copy, held: map<nat, Copy>)

  /**
    What can happen next, in any order. UpdateEntry writes its copy with a link count change of zero;
    the transactions for creating, linking, moving and removing write theirs with one of their own.
   */
  datatype Event =
    | Load(holder: nat)
    | Evict(holder: nat)
    | Edit(holder: nat, fields: string)
    | Write(holder: nat, delta: int)

  /** The conditional update finds the version of the copy in the row. */
  predicate Accepted(s: State, holder: nat) {
    holder in s.held && s.held[holder].version == s.row.version
  }

  predicate Writes(s: State, e: Event) {
    e.Write? && Accepted(s, e.holder)
  }

  /** A refused write changes nothing, and an accepted one leaves the copy as it was. */
  function Step(s: State, e: Event): State {
    match e
    case Load(h) => s.(held := s.held[h := s.row])
    case Evict(h) => s.(held := s.held - {h})
    case Edit(h, v) => if h in s.held then s.(held := s.held[h := s.held[h].(fields := v)]) else s
    case Write(h, d) =>
      if Accepted(s, h) then s.(row := Copy(NextVersion(s.held[h].version), s.held[h].refCount + d, s.held[h].fields)) else s
  }

  /** The state after the first i events. */
  function At(s: State, es: seq<Event>, i: nat): State
    requires i <= |es|
  {
    if i == 0 then s else Step(At(s, es, i - 1), es[i - 1])
  }

  /** How many of the first i events write the row. */
  function WriteCount(s: State, es: seq<Event>, i: nat): nat
    requires i <= |es|
  {
    if i == 0 then 0 else WriteCount(s, es, i - 1) + if Writes(At(s, es, i - 1), es[i - 1]) then 1 else 0
  }

  /** The link count changes of the accepted writes among the first i events. */
  function Links(s: State, es: seq<Event>, i: nat): int
    requires i <= |es|
  {
    if i == 0 then 0 else Links(s, es, i - 1) + if Writes(At(s, es, i - 1), es[i - 1]) then es[i - 1].delta else 0
  }

  // ---------------------------------------------------------------------------------------------
  // Every run, short of the wrap of the version
  // ---------------------------------------------------------------------------------------------

  /** No copy is ahead of the row, and one that is not behind has its link count. */
  ghost predicate Consistent(s: State) {
    0 <= s.row.version &&
    forall h :: h in s.held ==>
      s.held[h].version <= s.row.version && (s.held[h].version == s.row.version ==> s.held[h].refCount == s.row.refCount)
  }

  /**
    The version rises by one with each accepted write, and the link count is the sum of the changes
    that were meant: no write, however stale its copy, takes another one's change back.
   */
  lemma {:induction false} RunConserves(s: State, es: seq<Event>, i: nat)
    requires i <= |es| && Consistent(s) && s.row.version + WriteCount(s, es, i) <= MAX_INT64
    ensures Consistent(At(s, es, i))
    ensures At(s, es, i).row.version == s.row.version + WriteCount(s, es, i)
    ensures At(s, es, i).row.refCount == s.row.refCount + Links(s, es, i)
    decreases i
  {
    if i > 0 { RunConserves(s, es, i - 1); }
  }

  lemma {:induction false} FewerWrites(s: State, es: seq<Event>, i: nat, j: nat)
    requires i <= j <= |es|
    ensures WriteCount(s, es, i) <= WriteCount(s, es, j)
    decreases j
  {
    if i < j { FewerWrites(s, es, i, j - 1); }
  }

  /** A held copy carries the version that the row had when its holder loaded it. */
  ghost predicate LoadedAt(s: State, es: seq<Event>, i: nat, h: nat, j: nat) {
    && j < i <= |es| && es[j] == Load(h)
    && h in At(s, es, i).held && At(s, es, i).held[h].version == At(s, es, j).row.version
  }

  lemma {:induction false} HeldWasLoaded(s: State, es: seq<Event>, i: nat, h: nat)
    requires i <= |es| && s.held == map[] && h in At(s, es, i).held
    ensures exists j: nat :: LoadedAt(s, es, i, h, j)
    decreases i
  {
    if es[i - 1] == Load(h) {
      assert LoadedAt(s, es, i, h, i - 1);
    } else {
      HeldWasLoaded(s, es, i - 1, h);
      var j: nat :| LoadedAt(s, es, i - 1, h, j);
      assert LoadedAt(s, es, i, h, j);
    }
  }

  /** Event k writes the row. */
  predicate WritesAt(s: State, es: seq<Event>, k: nat) {
    k < |es| && Writes(At(s, es, k), es[k])
  }

  lemma SameVersionNoWrite(s: State, es: seq<Event>, j: nat, k: nat, i: nat)
    requires j < k < i <= |es| && Consistent(s) && s.row.version + WriteCount(s, es, i) <= MAX_INT64
    requires At(s, es, j).row.version == At(s, es, i).row.version
    ensures !WritesAt(s, es, k)
  {
    FewerWrites(s, es, j, i);
    FewerWrites(s, es, j, k);
    FewerWrites(s, es, k + 1, i);
    RunConserves(s, es, i);
    RunConserves(s, es, j);
  }

  /** An accepted write starts from what the row was: nothing wrote it since its holder loaded it. */
  lemma AcceptedIsFresh(s: State, es: seq<Event>, i: nat)
    requires i < |es| && s.held == map[] && Consistent(s) && s.row.version + WriteCount(s, es, i) <= MAX_INT64
    requires WritesAt(s, es, i)
    ensures exists j: nat :: LoadedAt(s, es, i, es[i].holder, j) && forall k :: j < k < i ==> !WritesAt(s, es, k)
  {
    var h := es[i].holder;
    HeldWasLoaded(s, es, i, h);
    var j: nat :| LoadedAt(s, es, i, h, j);
    forall k | j < k < i ensures !WritesAt(s, es, k) {
      SameVersionNoWrite(s, es, j, k, i);
    }
  }

  // ---------------------------------------------------------------------------------------------
  // What the row holds, in every run
  // ---------------------------------------------------------------------------------------------

  /** Event l is the load that the copy of h at point i goes back to: nothing loaded or evicted it since. */
  ghost predicate LastLoad(es: seq<Event>, h: nat, l: nat, i: nat) {
    l < i <= |es| && es[l] == Load(h) && forall k: nat :: l < k < i ==> !Replaces(es, h, k)
  }

  /** Event k loads or drops the copy of h. */
  predicate Replaces(es: seq<Event>, h: nat, k: nat) {
    k < |es| && (es[k] == Load(h) || es[k] == Evict(h))
  }

  /** What h last edited its copy to after event l and before point i, if it did. */
  function LastEdit(es: seq<Event>, h: nat, l: nat, i: nat): Option<string>
    requires i <= |es|
  {
    if i <= l + 1 then None
    else if es[i - 1].Edit? && es[i - 1].holder == h then Some(es[i - 1].fields)
    else LastEdit(es, h, l, i - 1)
  }

  /** The fields of the copy that h loaded at event l, at point i: the last edit, or else what the row had at the load. */
  function Meant(s: State, es: seq<Event>, h: nat, l: nat, i: nat): string
    requires l < i <= |es|
  {
    match LastEdit(es, h, l, i)
    case Some(v) => v
    case None => At(s, es, l).row.fields
  }

  /** A copy that is held was loaded, and holds what its holder meant by it. */
  lemma {:induction false} HeldIsMeant(s: State, es: seq<Event>, h: nat, i: nat)
    requires i <= |es| && s.held == map[] && h in At(s, es, i).held
    ensures exists l: nat :: LastLoad(es, h, l, i) && At(s, es, i).held[h].fields == Meant(s, es, h, l, i)
    decreases i
  {
    if es[i - 1] == Load(h) {
      assert LastLoad(es, h, i - 1, i);
      assert LastEdit(es, h, i - 1, i) == None;
    } else {
      HeldIsMeant(s, es, h, i - 1);
      var l: nat :| LastLoad(es, h, l, i - 1) && At(s, es, i - 1).held[h].fields == Meant(s, es, h, l, i - 1);
      assert !Replaces(es, h, i - 1);
      assert LastLoad(es, h, l, i);
    }
  }

  /** Nothing but an accepted write changes the row. */
  lemma {:induction false} RowKeeps(s: State, es: seq<Event>, i: nat, k: nat)
    requires i <= k <= |es| && forall m: nat :: i <= m < k ==> !WritesAt(s, es, m)
    ensures At(s, es, k).row == At(s, es, i).row
    decreases k
  {
    if i < k {
      RowKeeps(s, es, i, k - 1);
      assert !WritesAt(s, es, k - 1);
    }
  }

  /**
    Over every run the fields of the row are those of the latest accepted write: what its holder last
    edited its copy to since it loaded it, or else what the row had at that load.
   */
  lemma RowIsLastWritten(s: State, es: seq<Event>, w: nat, k: nat)
    requires w < k <= |es| && s.held == map[] && WritesAt(s, es, w)
    requires forall m: nat :: w < m < k ==> !WritesAt(s, es, m)
    ensures exists l: nat :: LastLoad(es, es[w].holder, l, w) && At(s, es, k).row.fields == Meant(s, es, es[w].holder, l, w)
  {
    HeldIsMeant(s, es, es[w].holder, w);
    var next := w + 1;
    assert At(s, es, next) == Step(At(s, es, w), es[w]);
    RowKeeps(s, es, next, k);
  }

  /** Until the first accepted write the row is as it was. */
  lemma RowIsFirst(s: State, es: seq<Event>, k: nat)
    requires k <= |es| && forall m: nat :: m < k ==> !WritesAt(s, es, m)
    ensures At(s, es, k).row == s.row
  {
    RowKeeps(s, es, 0, k);
  }

  /** A copy keeps the version that it was loaded with until it is loaded again or dropped. */
  lemma {:induction false} StaysHeld(s: State, es: seq<Event>, h: nat, l: nat, i: nat)
    requires LastLoad(es, h, l, i)
    ensures LoadedAt(s, es, i, h, l)
    decreases i
  {
    if l < i - 1 {
      StaysHeld(s, es, h, l, i - 1);
      assert !Replaces(es, h, i - 1);
    }
  }

  /**
    A write is accepted exactly if nothing else wrote the row since its holder loaded the copy: no writer
    is refused without another one having won.
   */
  lemma AcceptedIffFresh(s: State, es: seq<Event>, l: nat, i: nat)
    requires i < |es| && es[i].Write? && LastLoad(es, es[i].holder, l, i)
    requires Consistent(s) && s.row.version + WriteCount(s, es, i) <= MAX_INT64
    ensures WritesAt(s, es, i) <==> forall k: nat :: l < k < i ==> !WritesAt(s, es, k)
  {
    var h := es[i].holder;
    StaysHeld(s, es, h, l, i);
    if forall k: nat :: l < k < i ==> !WritesAt(s, es, k) {
      assert !WritesAt(s, es, l);
      RowKeeps(s, es, l, i);
    } else if WritesAt(s, es, i) {
      forall k: nat | l < k < i ensures !WritesAt(s, es, k) {
        SameVersionNoWrite(s, es, l, k, i);
      }
    }
  }

  // ---------------------------------------------------------------------------------------------
  // The transactions as writers
  // ---------------------------------------------------------------------------------------------

  function RowOf(e: Entry): Copy {
    Copy(e.version, e.refCount, e.name)
  }

  /** A transaction that writes a row once does to it what a load, an edit and an accepted write do. */
  lemma TransactionIsRun(e: Entry, e': Entry, held: map<nat, Copy>, h: nat)
    requires WrittenBack(e.(name := e'.name), e', 1)
    ensures var es := [Load(h), Edit(h, e'.name), Write(h, e'.refCount - e.refCount)];
            var s := State(RowOf(e), held);
            WritesAt(s, es, 2) && At(s, es, 3).row == RowOf(e')
  {
    var es, s := [Load(h), Edit(h, e'.name), Write(h, e'.refCount - e.refCount)], State(RowOf(e), held);
    assert At(s, es, 1) == Step(s, es[0]);
    assert At(s, es, 2) == Step(At(s, es, 1), es[1]);
    assert At(s, es, 3) == Step(At(s, es, 2), es[2]);
    assert Bumped(e.version, 1) == NextVersion(Bumped(e.version, 0));
  }

  /**
    A copy loaded before a transaction is accepted after it exactly if the transaction did not write that
    entry and the copy would have been accepted before.
   */
  lemma StaleAfterTransaction(before: Entries, after: Entries, writes: multiset<int>, id: int, s: State, h: nat)
    requires Wrote(before, after, writes) && id in before && s.row == RowOf(before[id])
    requires Consistent(s) && s.row.version + writes[id] <= MAX_INT64
    ensures Accepted(s.(row := RowOf(after[id])), h) <==> writes[id] == 0 && Accepted(s, h)
  {
    assert WrittenBack(before[id], after[id], writes[id]);
    BumpedRises(s.row.version, writes[id]);
  }

  // ---------------------------------------------------------------------------------------------
  // The wrap
  // ---------------------------------------------------------------------------------------------

  /**
    The bound on the version is needed: past the largest version the row starts again at 1024, and a
    copy that old is then accepted and takes back whatever happened to the link count since.
   */
  lemma WrapRollsBack(s: State, stale: nat, other: nat, d: int)
    requires s.row.version == MAX_INT64 && stale != other
    requires stale in s.held && s.held[stale].version == 1024
    ensures At(s, [Load(other), Write(other, d), Write(stale, 0)], 3).row.refCount == s.held[stale].refCount
  {
    var es := [Load(other), Write(other, d), Write(stale, 0)];
    assert At(s, es, 1) == Step(s, es[0]);
    assert At(s, es, 2) == Step(At(s, es, 1), es[1]);
    assert At(s, es, 3) == Step(At(s, es, 2), es[2]);
  }
}
