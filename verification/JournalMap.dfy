/** The map that the journal's slot array implements. */
module JournalMap {
  import opened Bytes
  import opened Access
  import opened AccessDigest
  import opened Journal

  datatype Record = Record(digest: Bytes32, expires: u64, completed: bool, code: i32)

  type Table = map<Bytes16, Record>

  datatype MapBeginStep = MapBeginStep(result: ReplayResult, out: BeginOut, table: Table)
  datatype MapCompleteStep = MapCompleteStep(result: ReplayResult, table: Table)

  // ---- the bounded map ----

  function Alive(m: Table, now: u64): Table {
    map id | id in m && now < m[id].expires :: m[id]
  }

  /** Beginning a request on a map of at most `capacity` records. */
  function MapBegin(m: Table, capacity: nat, maxTtl: u64, h: Hash, a: AuthorizedAccess, now: u64): MapBeginStep {
    if !AccessValid(a) || (now < a.expiresAt && a.expiresAt - now > maxTtl) then
      MapBeginStep(ReplayInvalidAccess, NO_BEGIN, m)
    else if now >= a.expiresAt then
      MapBeginStep(ReplayExpired, NO_BEGIN, m)
    else
      MapBeginAlive(Alive(m, now), capacity, h, a)
  }

  function MapBeginAlive(live: Table, capacity: nat, h: Hash, a: AuthorizedAccess): MapBeginStep {
    if a.requestId in live then
      var r := live[a.requestId];
      if r.digest != AccessHash(h, a) then MapBeginStep(ReplayConflict, NO_BEGIN, live)
      else MapBeginStep(ReplayOk, BeginOut(if r.completed then BeginCompleted else BeginInProgress, r.code), live)
    else if |live| >= capacity then
      MapBeginStep(ReplayResourceExhausted, NO_BEGIN, live)
    else
      MapBeginStep(ReplayOk, BeginOut(BeginNew, 0),
                   live[a.requestId := Record(AccessHash(h, a), a.expiresAt, false, 0)])
  }

  /** Recording a result on the map; the first result stands. */
  function MapComplete(m: Table, h: Hash, a: AuthorizedAccess, code: i32): MapCompleteStep {
    if !AccessValid(a) then MapCompleteStep(ReplayInvalidAccess, m)
    else if a.requestId !in m then MapCompleteStep(ReplayNotFound, m)
    else
      var r := m[a.requestId];
      if r.digest != AccessHash(h, a) || (r.completed && r.code != code) then MapCompleteStep(ReplayConflict, m)
      else MapCompleteStep(ReplayOk, m[a.requestId := Record(r.digest, r.expires, true, code)])
  }

  // ---- the abstraction ----

  function Ids(s: Slots): set<Bytes16> {
    set i | 0 <= i < |s| && !s[i].state.Free? :: s[i].id
  }

  function RecordOf(e: Entry): Record {
    Record(e.digest, e.expires, e.state.Completed?, e.code)
  }

  /** The records of a slot array, by request id. */
  ghost function Abs(s: Slots): Table {
    map id | id in Ids(s) :: RecordOf(s[Find(s, id)])
  }

  lemma AbsAt(s: Slots, k: nat)
    requires UniqueIds(s) && k < |s| && !s[k].state.Free?
    ensures s[k].id in Abs(s) && Abs(s)[s[k].id] == RecordOf(s[k])
  {
    FindIs(s, s[k].id, k);
  }

  lemma AbsHas(s: Slots, id: Bytes16)
    ensures id in Abs(s) <==> Find(s, id) < |s|
  {
  }

  /** Slots that agree record by record with a table implement it. */
  lemma AbsIs(s: Slots, m: Table)
    requires UniqueIds(s)
    requires forall k :: 0 <= k < |s| && !s[k].state.Free? ==> s[k].id in m && m[s[k].id] == RecordOf(s[k])
    requires forall id :: id in m ==> exists k :: 0 <= k < |s| && Taken(s[k], id)
    ensures Abs(s) == m
  {
    assert Abs(s).Keys == m.Keys;
  }

  function TakenCount(s: Slots): nat {
    if s == [] then 0
    else TakenCount(s[..|s| - 1]) + if s[|s| - 1].state.Free? then 0 else 1
  }

  lemma {:induction false} IdsSize(s: Slots)
    requires UniqueIds(s)
    ensures |Ids(s)| == TakenCount(s)
  {
    if s == [] {
    } else {
      var init, last := s[..|s| - 1], s[|s| - 1];
      IdsSize(init);
      assert forall i :: 0 <= i < |init| ==> init[i] == s[i];
      if last.state.Free? {
        assert Ids(s) == Ids(init);
      } else {
        assert last.id !in Ids(init);
        assert Ids(s) == Ids(init) + {last.id};
      }
    }
  }

  lemma {:induction false} CountFull(s: Slots)
    ensures TakenCount(s) <= |s|
    ensures TakenCount(s) == |s| <==> forall i :: 0 <= i < |s| ==> !s[i].state.Free?
  {
    if s == [] {
    } else {
      var init := s[..|s| - 1];
      CountFull(init);
      assert forall i :: 0 <= i < |init| ==> init[i] == s[i];
    }
  }

  lemma AbsSize(s: Slots)
    requires UniqueIds(s)
    ensures |Abs(s)| <= |s|
    ensures |Abs(s)| == |s| <==> FirstFree(s) == |s|
  {
    IdsSize(s);
    CountFull(s);
    assert Abs(s).Keys == Ids(s);
  }

  // ---- refinement ----

  lemma SweepRefines(s: Slots, now: u64)
    requires WellFormed(s)
    ensures Abs(Sweep(s, now)) == Alive(Abs(s), now)
  {
    var t := Sweep(s, now);
    SweepKeeps(s, now);
    forall id
      ensures id in Abs(t) <==> id in Alive(Abs(s), now)
      ensures id in Abs(t) ==> Abs(t)[id] == Alive(Abs(s), now)[id]
    {
      SweepRefinesAt(s, now, id);
    }
  }

  lemma SweepRefinesAt(s: Slots, now: u64, id: Bytes16)
    requires WellFormed(s)
    ensures id in Abs(Sweep(s, now)) <==> id in Abs(s) && now < Abs(s)[id].expires
    ensures id in Abs(Sweep(s, now)) ==> Abs(Sweep(s, now))[id] == Abs(s)[id]
  {
    var t := Sweep(s, now);
    SweepKeeps(s, now);
    AbsHas(s, id);
    AbsHas(t, id);
    var k, j := Find(s, id), Find(t, id);
    if j < |t| {
      FindIs(s, id, j);
    } else if k < |s| {
      assert !Taken(t[k], id);
    }
  }

  lemma InsertRefines(s: Slots, f: nat, e: Entry)
    requires UniqueIds(s) && f < |s| && s[f].state.Free? && !e.state.Free? && Find(s, e.id) == |s|
    ensures Abs(s[f := e]) == Abs(s)[e.id := RecordOf(e)]
  {
    var t, m := s[f := e], Abs(s)[e.id := RecordOf(e)];
    forall k | 0 <= k < |t| && !t[k].state.Free?
      ensures t[k].id in m && m[t[k].id] == RecordOf(t[k])
    {
      if k != f {
        AbsAt(s, k);
        assert !Taken(s[k], e.id);
      }
    }
    forall id | id in m
      ensures exists k :: 0 <= k < |t| && Taken(t[k], id)
    {
      assert Taken(t[if id == e.id then f else Find(s, id)], id);
    }
    AbsIs(t, m);
  }

  lemma UpdateRefines(s: Slots, k: nat, e: Entry)
    requires UniqueIds(s) && k < |s| && !s[k].state.Free? && !e.state.Free? && e.id == s[k].id
    ensures Abs(s[k := e]) == Abs(s)[e.id := RecordOf(e)]
  {
    var t, m := s[k := e], Abs(s)[e.id := RecordOf(e)];
    forall i | 0 <= i < |t| && !t[i].state.Free?
      ensures t[i].id in m && m[t[i].id] == RecordOf(t[i])
    {
      if i != k {
        AbsAt(s, i);
      }
    }
    forall id | id in m
      ensures exists i :: 0 <= i < |t| && Taken(t[i], id)
    {
      assert Taken(t[if id == e.id then k else Find(s, id)], id);
    }
    AbsIs(t, m);
  }

  lemma BeginSweptRefines(t: Slots, h: Hash, a: AuthorizedAccess)
    requires WellFormed(t)
    ensures var c := BeginSwept(t, h, a);
      MapBeginStep(c.result, c.out, Abs(c.slots)) == MapBeginAlive(Abs(t), |t|, h, a)
  {
    AbsSize(t);
    AbsHas(t, a.requestId);
    var k, f := Find(t, a.requestId), FirstFree(t);
    if k == |t| && f < |t| {
      InsertRefines(t, f, Opened(t[f], h, a));
    }
  }

  /** Sweep, linear search and first-free insertion are one map operation. */
  lemma BeginRefines(s: Slots, maxTtl: u64, h: Hash, a: AuthorizedAccess, now: u64)
    requires WellFormed(s)
    ensures var c := Begin(s, maxTtl, h, HashWorks, a, now);
      MapBeginStep(c.result, c.out, Abs(c.slots)) == MapBegin(Abs(s), |s|, maxTtl, h, a, now)
  {
    if AccessValid(a) && now < a.expiresAt && a.expiresAt - now <= maxTtl {
      SweepKeeps(s, now);
      SweepRefines(s, now);
      BeginSweptRefines(Sweep(s, now), h, a);
    }
  }

  lemma CompleteRefines(s: Slots, h: Hash, a: AuthorizedAccess, code: i32)
    requires WellFormed(s)
    ensures var c := Complete(s, h, HashWorks, a, code);
      MapCompleteStep(c.result, Abs(c.slots)) == MapComplete(Abs(s), h, a, code)
  {
    var k := Find(s, a.requestId);
    AbsHas(s, a.requestId);
    if k < |s| {
      AbsAt(s, k);
      if s[k].state.Completed? {
        SameRecord(Abs(s), a.requestId, RecordOf(s[k]));
      } else {
        UpdateRefines(s, k, Closed(s[k], code));
      }
    }
  }

  lemma SameRecord(m: Table, id: Bytes16, r: Record)
    requires id in m && m[id] == r
    ensures m[id := r] == m
  {
  }

  /** The conflict answer means what its name says: the id is live and bound to
      a different access, or a digest collision is at hand. */
  lemma ConflictMeansDifferentAccess(s: Slots, maxTtl: u64, h: Hash, a: AuthorizedAccess, b: AuthorizedAccess,
                                     now: u64, k: nat)
    requires WellFormed(s) && AccessValid(b) && now < b.expiresAt && b.expiresAt - now <= maxTtl
    requires a.requestId == b.requestId
    requires k < |s| && Taken(s[k], a.requestId) && now < s[k].expires && s[k].digest == AccessHash(h, a)
    ensures Begin(s, maxTtl, h, HashWorks, b, now).result == ReplayConflict ==> a != b
    ensures a != b ==> Begin(s, maxTtl, h, HashWorks, b, now).result == ReplayConflict
                       || Collision(h, PreImage(a), PreImage(b))
  {
    var t := Sweep(s, now);
    SweepKeeps(s, now);
    FindIs(t, b.requestId, k);
    if a != b && AccessHash(h, a) == AccessHash(h, b) {
      DigestSeparates(h, a, b);
    }
  }
}
