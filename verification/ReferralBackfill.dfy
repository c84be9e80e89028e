/** The referral edges that were never written,
    `migrations/versions/0028_backfill_referral_edges.py`. */
module ReferralBackfill {
  import opened Options
  import Numerals
  import Sql

  /** One customer of one shop; the same Telegram account may have several. */
  datatype User = User(telegramId: int, referralCode: string, referredByCode: Option<string>, createdAt: int)

  datatype Referral = Referral(
    id: string, referrerId: int, inviteeId: int, code: string, joinedAt: int,
    rewardPaid: int, inviteeBonusPaid: int, revenueGenerated: int, createdAt: int, updatedAt: int)

  type Users = map<string, User>
  type Referrals = map<string, Referral>

  predicate HasEdge(referrals: Referrals, invitee: int) {
    exists id <- referrals :: referrals[id].inviteeId == invitee
  }

  /** The table's own constraints: primary key, unique invitee, nobody refers
      themselves, no negative reward. */
  ghost predicate Consistent(referrals: Referrals) {
    && (forall id <- referrals :: referrals[id].id == id)
    && (forall i <- referrals, j <- referrals :: referrals[i].inviteeId == referrals[j].inviteeId ==> i == j)
    && (forall id <- referrals :: referrals[id].referrerId != referrals[id].inviteeId && referrals[id].rewardPaid >= 0)
  }

  const ID_PREFIX := "backfill-"

  function EdgeId(invitee: int): string {
    ID_PREFIX + Numerals.IntText(invitee)
  }

  lemma EdgeIdInjective(a: int, b: int)
    requires EdgeId(a) == EdgeId(b)
    ensures a == b
  {
    assert EdgeId(a)[|ID_PREFIX|..] == Numerals.IntText(a) && EdgeId(b)[|ID_PREFIX|..] == Numerals.IntText(b);
    Numerals.IntTextInjective(a, b);
  }

  /** The join and its WHERE clause, over the tables as the statement finds
      them. */
  function Selected(invitee: User, referrer: User, referrals: Referrals): Sql.Truth {
    Sql.And(Sql.Equal(Some(referrer.referralCode), invitee.referredByCode),
    Sql.And(Sql.IsNotNull(invitee.referredByCode),
    Sql.And(Sql.Of(referrer.telegramId != invitee.telegramId),
            Sql.Of(!HasEdge(referrals, invitee.telegramId)))))
  }

  function Edge(invitee: User, referrer: User, now: int): Referral {
    Referral(EdgeId(invitee.telegramId), referrer.telegramId, invitee.telegramId,
             if invitee.referredByCode.Some? then invitee.referredByCode.value else "",
             invitee.createdAt, 0, 0, 0, now, now)
  }

  /** The code an account arrived on resolves to somebody else. */
  predicate WasReferred(users: Users, i: string, r: string) {
    && i in users && r in users
    && users[i].referredByCode == Some(users[r].referralCode)
    && users[i].telegramId != users[r].telegramId
  }

  /** The joined rows in the order the database happens to produce them. */
  ghost predicate IsPlan(plan: seq<(string, string)>, users: Users, referrals: Referrals) {
    && (forall p <- plan :: p.0 in users && p.1 in users)
    && (forall i <- users, r <- users :: (i, r) in plan <==> Selected(users[i], users[r], referrals).Yes?)
  }

  function Edges(plan: seq<(string, string)>, users: Users, now: int): (edges: seq<Referral>)
    requires forall p <- plan :: p.0 in users && p.1 in users
    ensures |edges| == |plan|
    ensures forall k :: 0 <= k < |plan| ==> edges[k] == Edge(users[plan[k].0], users[plan[k].1], now)
  {
    seq(|plan|, k requires 0 <= k < |plan| => Edge(users[plan[k].0], users[plan[k].1], now))
  }

  /** INSERT ... ON CONFLICT (invitee_id) DO NOTHING, row by row; a clash of the
      primary key fails the whole statement. */
  function InsertEach(referrals: Referrals, edges: seq<Referral>): Option<Referrals> {
    if edges == [] then Some(referrals)
    else
      var last := edges[|edges| - 1];
      match InsertEach(referrals, edges[..|edges| - 1])
      case None => None
      case Some(before) =>
        if HasEdge(before, last.inviteeId) then Some(before)
        else if last.id in before then None
        else Some(before[last.id := last])
  }

  predicate IsEdge(e: Referral) {
    e.id == EdgeId(e.inviteeId) && e.referrerId != e.inviteeId && e.rewardPaid >= 0
  }

  /** Edges as the statement makes them: of accounts with none so far. */
  ghost predicate AreNew(edges: seq<Referral>, referrals: Referrals) {
    forall k :: 0 <= k < |edges| ==> IsEdge(edges[k]) && !HasEdge(referrals, edges[k].inviteeId)
  }

  predicate Clashes(edges: seq<Referral>, referrals: Referrals) {
    exists k :: 0 <= k < |edges| && edges[k].id in referrals
  }

  /** Of each account's edges the first, under its generated id. */
  function FirstEdges(edges: seq<Referral>): Referrals {
    if edges == [] then map[]
    else
      var last := edges[|edges| - 1];
      var before := FirstEdges(edges[..|edges| - 1]);
      if last.id in before then before else before[last.id := last]
  }

  lemma {:induction false} FirstEdgesAre(edges: seq<Referral>)
    ensures forall id <- FirstEdges(edges) :: FirstEdges(edges)[id].id == id && FirstEdges(edges)[id] in edges
    ensures forall k :: 0 <= k < |edges| ==> edges[k].id in FirstEdges(edges)
  {
    if edges != [] {
      var init := edges[..|edges| - 1];
      FirstEdgesAre(init);
      assert forall e <- init :: e in edges;
      assert forall k :: 0 <= k < |init| ==> edges[k] == init[k];
    }
  }

  /** Whichever of an account's edges the database comes to first stays. */
  lemma {:induction false} FirstOneStays(edges: seq<Referral>, k: nat)
    requires k < |edges| && forall j :: 0 <= j < k ==> edges[j].id != edges[k].id
    ensures edges[k].id in FirstEdges(edges) && FirstEdges(edges)[edges[k].id] == edges[k]
  {
    var n := |edges| - 1;
    var init := edges[..n];
    if k < n {
      FirstOneStays(init, k);
    } else {
      FirstEdgesAre(init);
    }
  }

  lemma HasEdgeAmong(referrals: Referrals, added: Referrals, invitee: int)
    requires referrals.Keys !! added.Keys
    requires forall id <- added :: added[id].id == id && IsEdge(added[id])
    ensures HasEdge(referrals + added, invitee) <==> HasEdge(referrals, invitee) || EdgeId(invitee) in added
  {
    var all := referrals + added;
    if HasEdge(all, invitee) {
      var id :| id in all && all[id].inviteeId == invitee;
      if id in added {
        assert EdgeId(invitee) == id;
      } else {
        assert referrals[id].inviteeId == invitee;
      }
    }
    if HasEdge(referrals, invitee) {
      var id :| id in referrals && referrals[id].inviteeId == invitee;
      assert all[id].inviteeId == invitee;
    }
    if EdgeId(invitee) in added {
      EdgeIdInjective(added[EdgeId(invitee)].inviteeId, invitee);
      assert all[EdgeId(invitee)].inviteeId == invitee;
    }
  }

  lemma AddedAreEdges(edges: seq<Referral>)
    requires forall k :: 0 <= k < |edges| ==> IsEdge(edges[k])
    ensures forall id <- FirstEdges(edges) :: FirstEdges(edges)[id].id == id && IsEdge(FirstEdges(edges)[id])
  {
  }

  lemma NoClashIsDisjoint(edges: seq<Referral>, referrals: Referrals)
    requires !Clashes(edges, referrals)
    ensures referrals.Keys !! FirstEdges(edges).Keys
  {
  }

  /** The statement fails exactly when one of the ids it generates is taken, and
      otherwise adds each account's first edge to the rows there were. */
  lemma {:induction false} InsertEachIs(referrals: Referrals, edges: seq<Referral>)
    requires AreNew(edges, referrals)
    ensures InsertEach(referrals, edges) ==
            if Clashes(edges, referrals) then None else Some(referrals + FirstEdges(edges))
  {
    hide HasEdge, IsEdge, EdgeId;
    if edges == [] {
      assert referrals + map[] == referrals;
    } else {
      var n := |edges| - 1;
      var init, last := edges[..n], edges[n];
      InsertEachIs(referrals, init);
      assert forall k :: 0 <= k < n ==> edges[k] == init[k];
      assert Clashes(edges, referrals) <==> Clashes(init, referrals) || last.id in referrals;
      if !Clashes(init, referrals) {
        NoClashIsDisjoint(init, referrals);
        AddedAreEdges(init);
        InsertsOne(referrals, FirstEdges(init), last);
      }
    }
  }

  lemma InsertsOne(referrals: Referrals, added: Referrals, last: Referral)
    requires referrals.Keys !! added.Keys && IsEdge(last) && !HasEdge(referrals, last.inviteeId)
    requires forall id <- added :: added[id].id == id && IsEdge(added[id])
    ensures HasEdge(referrals + added, last.inviteeId) <==> last.id in added
    ensures last.id in added ==> last.id !in referrals
    ensures last.id !in added ==> (referrals + added)[last.id := last] == referrals + added[last.id := last]
  {
    HasEdgeAmong(referrals, added, last.inviteeId);
  }

  lemma StaysConsistent(referrals: Referrals, edges: seq<Referral>)
    requires Consistent(referrals) && AreNew(edges, referrals) && !Clashes(edges, referrals)
    ensures Consistent(referrals + FirstEdges(edges))
  {
    var added := FirstEdges(edges);
    var all := referrals + added;
    NoClashIsDisjoint(edges, referrals);
    AddedAreEdges(edges);
    FirstEdgesAre(edges);
    forall i, j | i in all && j in all && all[i].inviteeId == all[j].inviteeId ensures i == j {
      SameInviteeSameRow(referrals, added, edges, i, j);
    }
  }

  lemma SameInviteeSameRow(referrals: Referrals, added: Referrals, edges: seq<Referral>, i: string, j: string)
    requires Consistent(referrals) && AreNew(edges, referrals) && referrals.Keys !! added.Keys
    requires forall id <- added :: added[id].id == id && IsEdge(added[id]) && added[id] in edges
    ensures var all := referrals + added; i in all && j in all && all[i].inviteeId == all[j].inviteeId ==> i == j
  {
  }

  // ---------- the migration ----------

  lemma EdgesAreNew(plan: seq<(string, string)>, users: Users, referrals: Referrals, now: int)
    requires IsPlan(plan, users, referrals)
    ensures AreNew(Edges(plan, users, now), referrals)
  {
  }

  lemma {:induction false} FailsAsAWhole(referrals: Referrals, edges: seq<Referral>, k: nat)
    requires k <= |edges| && InsertEach(referrals, edges[..k]).None?
    ensures InsertEach(referrals, edges).None?
    decreases |edges| - k
  {
    if k == |edges| {
      assert edges[..k] == edges;
    } else {
      assert edges[..k + 1][..k] == edges[..k];
      FailsAsAWhole(referrals, edges, k + 1);
    }
  }

  lemma FirstEdgesOfPlan(plan: seq<(string, string)>, users: Users, now: int, t: int)
    requires forall p <- plan :: p.0 in users && p.1 in users
    ensures EdgeId(t) in FirstEdges(Edges(plan, users, now)) <==> exists p <- plan :: users[p.0].telegramId == t
  {
    hide EdgeId;
    var edges := Edges(plan, users, now);
    FirstEdgesAre(edges);
    hide FirstEdges;
    if EdgeId(t) in FirstEdges(edges) {
      var k :| 0 <= k < |edges| && edges[k] == FirstEdges(edges)[EdgeId(t)];
      EdgeIdInjective(edges[k].inviteeId, t);
      assert plan[k] in plan;
    }
    if p :| p in plan && users[p.0].telegramId == t {
      var k :| 0 <= k < |plan| && plan[k] == p;
      assert edges[k].id == EdgeId(t);
    }
  }

  lemma EveryoneHasAnEdge(referrals: Referrals, plan: seq<(string, string)>, users: Users, now: int)
    requires IsPlan(plan, users, referrals) && !Clashes(Edges(plan, users, now), referrals)
    ensures forall t :: HasEdge(referrals + FirstEdges(Edges(plan, users, now)), t) <==>
                        HasEdge(referrals, t) || exists p <- plan :: users[p.0].telegramId == t
  {
    hide HasEdge, EdgeId, FirstEdges;
    var edges := Edges(plan, users, now);
    EdgesAreNew(plan, users, referrals, now);
    NoClashIsDisjoint(edges, referrals);
    AddedAreEdges(edges);
    forall t ensures HasEdge(referrals + FirstEdges(edges), t) <==>
                     HasEdge(referrals, t) || exists p <- plan :: users[p.0].telegramId == t
    {
      HasEdgeAmong(referrals, FirstEdges(edges), t);
      FirstEdgesOfPlan(plan, users, now, t);
    }
  }

  /** Afterwards every account whose code resolves to somebody else has its
      edge, so the statement finds nothing to insert a second time. */
  lemma SecondRunFindsNothing(users: Users, before: Referrals, after: Referrals, plan: seq<(string, string)>)
    requires IsPlan(plan, users, before)
    requires forall t :: HasEdge(after, t) <==> HasEdge(before, t) || exists p <- plan :: users[p.0].telegramId == t
    ensures forall i, r :: WasReferred(users, i, r) ==> HasEdge(after, users[i].telegramId)
    ensures IsPlan([], users, after)
  {
  }

  lemma ClashesAre(plan: seq<(string, string)>, users: Users, referrals: Referrals, now: int)
    requires IsPlan(plan, users, referrals)
    ensures Clashes(Edges(plan, users, now), referrals) <==>
              exists p <- plan :: EdgeId(users[p.0].telegramId) in referrals
  {
  }

  /** Ids that look generated are: each is that of its own row's invitee. */
  ghost predicate OwnBackfills(referrals: Referrals) {
    forall id <- referrals :: ID_PREFIX <= id ==> id == EdgeId(referrals[id].inviteeId)
  }

  lemma TakenIsOwn(referrals: Referrals, invitee: int)
    requires OwnBackfills(referrals) && EdgeId(invitee) in referrals
    ensures HasEdge(referrals, invitee)
  {
    EdgeIdInjective(referrals[EdgeId(invitee)].inviteeId, invitee);
  }

  /** Then no generated id is taken, since it would be the edge of an account that
      has none, and the new rows keep it so. */
  lemma OwnBackfillsStay(plan: seq<(string, string)>, users: Users, referrals: Referrals, now: int)
    requires IsPlan(plan, users, referrals) && OwnBackfills(referrals)
    ensures var edges := Edges(plan, users, now);
            !Clashes(edges, referrals) && OwnBackfills(referrals + FirstEdges(edges))
  {
    var edges := Edges(plan, users, now);
    EdgesAreNew(plan, users, referrals, now);
    AddedAreEdges(edges);
    forall k | 0 <= k < |edges| ensures edges[k].id !in referrals {
      if edges[k].id in referrals {
        TakenIsOwn(referrals, edges[k].inviteeId);
      }
    }
  }

  const INVITED: Users := map["a" := User(7, "seven", None, 0), "b" := User(8, "eight", Some("seven"), 0)]
  const TAKEN: Referrals := map[EdgeId(8) := Referral(EdgeId(8), 7, 9, "seven", 0, 0, 0, 0, 0, 0)]

  /** A new row is that of a pair of the plan, and of the first pair of its account:
      the referrer is the account of the pair's other side, the code the one it
      arrived on, the date that of the account, the amounts are none and the two
      stamps the time of the statement. */
  predicate IsRowOf(e: Referral, plan: seq<(string, string)>, users: Users, k: nat, now: int)
    requires k < |plan| && forall j :: 0 <= j < |plan| ==> plan[j].0 in users && plan[j].1 in users
  {
    var invitee, referrer := users[plan[k].0], users[plan[k].1];
    && e.id == "backfill-" + Numerals.IntText(invitee.telegramId)
    && e.referrerId == referrer.telegramId && e.inviteeId == invitee.telegramId && e.referrerId != e.inviteeId
    && invitee.referredByCode == Some(e.code) && referrer.referralCode == e.code
    && e.joinedAt == invitee.createdAt
    && e.rewardPaid == 0 && e.inviteeBonusPaid == 0 && e.revenueGenerated == 0
    && e.createdAt == now && e.updatedAt == now
    && forall j :: 0 <= j < k ==> users[plan[j].0].telegramId != invitee.telegramId
  }

  lemma {:induction false} FirstEdgeOf(edges: seq<Referral>, id: string) returns (k: nat)
    requires id in FirstEdges(edges)
    ensures k < |edges| && edges[k] == FirstEdges(edges)[id] && edges[k].id == id
    ensures forall j :: 0 <= j < k ==> edges[j].id != id
  {
    var n := |edges| - 1;
    var init := edges[..n];
    if id in FirstEdges(init) {
      k := FirstEdgeOf(init, id);
      assert forall j :: 0 <= j < n ==> edges[j] == init[j];
    } else {
      k := n;
      FirstEdgesAre(init);
      assert forall j :: 0 <= j < n ==> edges[j] == init[j];
    }
  }

  lemma NewRowsAre(plan: seq<(string, string)>, users: Users, referrals: Referrals, now: int)
    requires IsPlan(plan, users, referrals)
    ensures forall j :: 0 <= j < |plan| ==> plan[j].0 in users && plan[j].1 in users
    ensures forall id <- FirstEdges(Edges(plan, users, now)) ::
              exists k :: 0 <= k < |plan| && IsRowOf(FirstEdges(Edges(plan, users, now))[id], plan, users, k, now)
  {
    var edges := Edges(plan, users, now);
    forall j | 0 <= j < |plan| ensures plan[j].0 in users && plan[j].1 in users {
      assert plan[j] in plan;
    }
    hide FirstEdges;
    forall id | id in FirstEdges(edges)
      ensures exists k :: 0 <= k < |plan| && IsRowOf(FirstEdges(edges)[id], plan, users, k, now)
    {
      var k := FirstEdgeOf(edges, id);
      PairIsReferred(plan, users, referrals, k);
      assert IsRowOf(edges[k], plan, users, k, now);
    }
  }

  lemma PairIsReferred(plan: seq<(string, string)>, users: Users, referrals: Referrals, k: nat)
    requires IsPlan(plan, users, referrals) && k < |plan|
    ensures WasReferred(users, plan[k].0, plan[k].1) && !HasEdge(referrals, users[plan[k].0].telegramId)
  {
    assert plan[k] in plan && (plan[k].0, plan[k].1) == plan[k];
  }

  /** An id of that form on somebody else's row makes the statement fail: account
      8 cannot have its edge while the row of account 9 is called backfill-8. */
  lemma TakenIdFails(plan: seq<(string, string)>, now: int)
    requires IsPlan(plan, INVITED, TAKEN)
    ensures Consistent(TAKEN) && InsertEach(TAKEN, Edges(plan, INVITED, now)).None?
  {
    hide EdgeId, InsertEach;
    assert "a" in INVITED && "b" in INVITED && Selected(INVITED["b"], INVITED["a"], TAKEN).Yes?;
    assert ("b", "a") in plan && EdgeId(INVITED["b"].telegramId) in TAKEN;
    EdgesAreNew(plan, INVITED, TAKEN, now);
    ClashesAre(plan, INVITED, TAKEN, now);
    InsertEachIs(TAKEN, Edges(plan, INVITED, now));
  }

  /** The rows one after another, each against the table as it stands by then. */
  method InsertRows(referrals: Referrals, edges: seq<Referral>) returns (table: Option<Referrals>)
    ensures table == InsertEach(referrals, edges)
  {
    var current := referrals;
    for k := 0 to |edges|
      invariant InsertEach(referrals, edges[..k]) == Some(current)
    {
      var edge := edges[k];
      assert edges[..k + 1][..k] == edges[..k];
      if HasEdge(current, edge.inviteeId) {
        continue;
      }
      if edge.id in current {
        FailsAsAWhole(referrals, edges, k + 1);
        return None;
      }
      current := current[edge.id := edge];
    }
    assert edges[..|edges|] == edges;
    return Some(current);
  }

  class Database {
    var users: Users
    var referrals: Referrals

    constructor (users: Users, referrals: Referrals)
      ensures this.users == users && this.referrals == referrals
    {
      this.users, this.referrals := users, referrals;
    }

    /** The INSERT, over the joined rows in any order.  It fails, changing
        nothing, exactly when a generated id is already taken. */
    method Upgrade(plan: seq<(string, string)>, now: int) returns (ok: bool)
      requires Consistent(referrals) && IsPlan(plan, users, referrals)
      modifies this`referrals
      ensures ok <==> forall p <- plan :: "backfill-" + Numerals.IntText(users[p.0].telegramId) !in old(referrals)
      ensures !ok ==> referrals == old(referrals)
      ensures ok ==> Consistent(referrals)
      ensures OwnBackfills(old(referrals)) ==> ok && OwnBackfills(referrals)
      ensures ok ==> referrals == old(referrals) + FirstEdges(Edges(plan, users, now))
      ensures ok ==> forall id <- old(referrals) :: id in referrals && referrals[id] == old(referrals)[id]
      ensures ok ==> forall t :: HasEdge(referrals, t) <==>
                       HasEdge(old(referrals), t) || exists p <- plan :: users[p.0].telegramId == t
      ensures forall j :: 0 <= j < |plan| ==> plan[j].0 in users && plan[j].1 in users
      ensures ok ==> forall id <- referrals :: id !in old(referrals) ==>
                       exists k :: 0 <= k < |plan| && IsRowOf(referrals[id], plan, users, k, now)
      ensures ok ==> forall i, r :: WasReferred(users, i, r) ==> HasEdge(referrals, users[i].telegramId)
    {
      hide InsertEach, FirstEdges;
      var edges := Edges(plan, users, now);
      var table := InsertRows(referrals, edges);
      NewRowsAre(plan, users, referrals, now);
      EdgesAreNew(plan, users, referrals, now);
      InsertEachIs(referrals, edges);
      ClashesAre(plan, users, referrals, now);
      if OwnBackfills(referrals) {
        OwnBackfillsStay(plan, users, referrals, now);
      }
      if table.None? {
        return false;
      }
      StaysConsistent(referrals, edges);
      NoClashIsDisjoint(edges, referrals);
      EveryoneHasAnEdge(referrals, plan, users, now);
      SecondRunFindsNothing(users, referrals, table.value, plan);
      referrals := table.value;
      return true;
    }
  }
}
