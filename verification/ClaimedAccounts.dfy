/** One adopted service per panel account,
    `migrations/versions/0027_one_claim_per_account.py`. */
module ClaimedAccounts {
  import opened Options
  import Sql

  datatype Row = Row(id: string, orderId: Option<string>, nodeId: Option<string>, remoteUsername: Option<string>,
      startedAt: int)

  /** The order the database's collation puts texts in. */
  type Collation = (string, string) -> bool

  ghost predicate StrictTotalOrder(less: Collation) {
    && (forall a :: !less(a, a))
    && (forall a, b, c :: less(a, b) && less(b, c) ==> less(a, c))
    && (forall a, b :: a != b ==> less(a, b) || less(b, a))
  }

  type Table = map<string, Row>

  /** `id` is the primary key. */
  ghost predicate Keyed(rows: Table) {
    forall id <- rows :: rows[id].id == id
  }

  /** `(a.started_at, a.id) < (b.started_at, b.id)` */
  predicate Earlier(a: Row, b: Row, less: Collation) {
    a.startedAt < b.startedAt || (a.startedAt == b.startedAt && less(a.id, b.id))
  }

  /** The DELETE's condition on a row and a row to keep. */
  function DeletedFor(s: Row, keep: Row, less: Collation): Sql.Truth {
    Sql.And(Sql.IsNull(s.orderId),
    Sql.And(Sql.IsNull(keep.orderId),
    Sql.And(Sql.Equal(s.nodeId, keep.nodeId),
    Sql.And(Sql.Equal(s.remoteUsername, keep.remoteUsername),
    Sql.And(Sql.IsNotNull(s.nodeId), Sql.Of(Earlier(keep, s, less)))))))
  }

  /** Two claims of one panel account. */
  predicate SameAccount(a: Row, b: Row) {
    && a.orderId.None? && b.orderId.None?
    && a.nodeId.Some? && a.nodeId == b.nodeId
    && a.remoteUsername.Some? && a.remoteUsername == b.remoteUsername
  }

  /** A claim that names an account: the rows the migration is about. */
  predicate NamesAccount(r: Row) {
    SameAccount(r, r)
  }

  /** Unique over `(node_id, remote_username)` of the rows without an order. */
  predicate IndexHolds(rows: Table) {
    forall i <- rows, j <- rows :: i != j ==> !SameAccount(rows[i], rows[j])
  }

  predicate IsEarliest(rows: Table, id: string, less: Collation)
    requires id in rows
  {
    forall other <- rows :: other != id && SameAccount(rows[id], rows[other]) ==> Earlier(rows[id], rows[other], less)
  }

  /** The row gives way to the other one: both were claimed and not bought, on the
      same account of the same node, and the other was started earlier, or at the
      same time under an id that comes first. */
  predicate GivesWayTo(r: Row, other: Row, less: Collation) {
    && r.orderId == None && other.orderId == None
    && r.nodeId != None && r.nodeId == other.nodeId
    && r.remoteUsername != None && r.remoteUsername == other.remoteUsername
    && (other.startedAt < r.startedAt || (other.startedAt == r.startedAt && less(other.id, r.id)))
  }

  lemma EarliestGivesWayToNone(rows: Table, id: string, less: Collation)
    requires Keyed(rows) && StrictTotalOrder(less) && id in rows
    ensures IsEarliest(rows, id, less) <==> forall other <- rows :: !GivesWayTo(rows[id], rows[other], less)
  {
    if IsEarliest(rows, id, less) {
      forall other | other in rows ensures !GivesWayTo(rows[id], rows[other], less) {
        EarlierIsOrder(rows[id], rows[other], rows[id], less);
      }
    } else {
      var other :| other in rows && other != id && SameAccount(rows[id], rows[other]) &&
          !Earlier(rows[id], rows[other], less);
      EarlierIsOrder(rows[id], rows[other], rows[id], less);
      assert GivesWayTo(rows[id], rows[other], less);
    }
  }

  class Subscriptions {
    var rows: Table
    var indexed: bool

    constructor (rows: Table)
      ensures this.rows == rows && !indexed
    {
      this.rows, indexed := rows, false;
    }

    /** The self-join DELETE: every row of the table as it was is looked at, and
        what stays is the earliest claim of each account and every other row. */
    method DeleteLaterClaims(less: Collation)
      requires Keyed(rows) && StrictTotalOrder(less)
      modifies this`rows
      ensures forall id :: id in rows <==> id in old(rows) && IsEarliest(old(rows), id, less)
      ensures forall id <- rows :: rows[id] == old(rows)[id]
    {
      rows := map id | id in rows && !(exists k :: k in rows && DeletedFor(rows[id], rows[k], less).Yes?) :: rows[id];
      forall id | id in old(rows) ensures id in rows <==> IsEarliest(old(rows), id, less) {
        KeptIffEarliest(old(rows), id, less);
      }
    }

    /** Creating the partial unique index fails on a table that breaks it. */
    method CreateIndex() returns (ok: bool)
      modifies this`indexed
      ensures ok <==> IndexHolds(rows)
      ensures indexed == (if ok then true else old(indexed))
    {
      ok := IndexHolds(rows);
      if ok {
        indexed := true;
      }
    }

    /** On every table the upgrade goes through: what is left of it is every row
        that names no account, purchased ones included, and of each account's
        claims the earliest, all as they were. */
    method Upgrade(less: Collation) returns (ok: bool)
      requires Keyed(rows) && StrictTotalOrder(less)
      modifies this
      ensures ok && indexed && IndexHolds(rows)
      ensures forall id :: id in rows <==>
                id in old(rows) && forall other <- old(rows) :: !GivesWayTo(old(rows)[id], old(rows)[other], less)
      ensures forall id <- rows :: rows[id] == old(rows)[id]
      ensures forall i <- rows, j <- rows ::
                i != j && rows[i].orderId == rows[j].orderId == None && rows[i].nodeId != None &&
                    rows[i].remoteUsername != None ==>
                  rows[i].nodeId != rows[j].nodeId || rows[i].remoteUsername != rows[j].remoteUsername
      ensures forall id <- old(rows) :: !NamesAccount(old(rows)[id]) ==> id in rows
    {
      DeleteLaterClaims(less);
      forall i, j | i in rows && j in rows && i != j ensures !SameAccount(rows[i], rows[j]) {
        OneEarliest(old(rows), i, j, less);
      }
      forall id | id in old(rows)
        ensures id in rows <==> forall other <- old(rows) :: !GivesWayTo(old(rows)[id], old(rows)[other], less)
      {
        EarliestGivesWayToNone(old(rows), id, less);
      }
      hide GivesWayTo, IsEarliest;
      ok := CreateIndex();
    }
  }

  lemma EarlierIsOrder(a: Row, b: Row, c: Row, less: Collation)
    requires StrictTotalOrder(less)
    ensures !(Earlier(a, b, less) && Earlier(b, a, less))
    ensures Earlier(a, b, less) && Earlier(b, c, less) ==> Earlier(a, c, less)
    ensures a.id != b.id ==> Earlier(a, b, less) || Earlier(b, a, less)
  {
  }

  lemma KeptIffEarliest(rows: Table, id: string, less: Collation)
    requires Keyed(rows) && StrictTotalOrder(less) && id in rows
    ensures !(exists k :: k in rows && DeletedFor(rows[id], rows[k], less).Yes?) <==> IsEarliest(rows, id, less)
  {
  }

  lemma OneEarliest(rows: Table, i: string, j: string, less: Collation)
    requires Keyed(rows) && StrictTotalOrder(less) && i in rows && j in rows && i != j
    requires IsEarliest(rows, i, less) && IsEarliest(rows, j, less)
    ensures !SameAccount(rows[i], rows[j])
  {
  }

  /** No account loses its last claim: each has exactly one earliest. */
  lemma AccountKeepsOne(rows: Table, id: string, less: Collation) returns (kept: string)
    requires Keyed(rows) && StrictTotalOrder(less) && id in rows && NamesAccount(rows[id])
    ensures kept in rows && SameAccount(rows[id], rows[kept]) && IsEarliest(rows, kept, less)
    ensures forall other <- rows :: SameAccount(rows[id], rows[other]) && IsEarliest(rows, other, less) ==>
              other == kept
  {
    var claims := set k | k in rows && SameAccount(rows[id], rows[k]);
    assert id in claims;
    kept := EarliestOf(rows, claims, less);
    forall other | other in rows && other != kept && SameAccount(rows[kept], rows[other])
      ensures Earlier(rows[kept], rows[other], less)
    {
      assert other in claims;
    }
    forall other | other in rows && SameAccount(rows[id], rows[other]) && IsEarliest(rows, other, less)
      ensures other == kept
    {
      if other != kept {
        OneEarliest(rows, other, kept, less);
      }
    }
  }

  lemma {:induction false} EarliestOf(rows: Table, ids: set<string>, less: Collation) returns (least: string)
    requires Keyed(rows) && StrictTotalOrder(less) && ids != {} && ids <= rows.Keys
    ensures least in ids && forall k <- ids :: k != least ==> Earlier(rows[least], rows[k], less)
    decreases |ids|
  {
    var one :| one in ids;
    var rest := ids - {one};
    assert forall k <- ids :: k == one || k in rest;
    if rest == {} {
      least := one;
    } else {
      var best := EarliestOf(rows, rest, less);
      least := if Earlier(rows[one], rows[best], less) then one else best;
      EarlierIsOrder(rows[one], rows[best], rows[one], less);
      forall k | k in ids && k != least ensures Earlier(rows[least], rows[k], less) {
        EarlierIsOrder(rows[one], rows[best], rows[k], less);
      }
    }
  }
}
