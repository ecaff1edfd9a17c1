/** The decision logic of quota consumption as functions of the two user
    sources: the store (`userRepository`, keyed by id) and the in-memory
    snapshot (`elasticUsers`, a list). `UserService` is proved against these. */
module QuotaRules {
  import opened Wrappers
  import opened UserModel

  /** What the service reads and writes: the store's rows and the snapshot
      entries' current states, in list order. */
  datatype Store = Store(repo: map<string, UserRecord>, snapshot: seq<UserRecord>)

  /** Every row is kept under its own id, as `save` does. */
  ghost predicate KeyedById(repo: map<string, UserRecord>) {
    forall k :: k in repo ==> repo[k].id == k
  }

  /** `elasticUsers.stream().filter(id matches).findFirst()`: the index of the first entry with `id`. */
  function FirstMatch(s: seq<UserRecord>, id: string): (r: Option<nat>)
    ensures r.Some? ==> r.value < |s| && s[r.value].id == id
    ensures r.Some? ==> forall j :: 0 <= j < r.value ==> s[j].id != id
    ensures r.None? <==> forall j :: 0 <= j < |s| ==> s[j].id != id
  {
    if s == [] then None
    else if s[0].id == id then Some(0)
    else match FirstMatch(s[1..], id)
      case None => None
      case Some(i) => Some(i + 1)
  }

  /** Where a candidate record came from. */
  datatype Source = Repository | Snapshot(index: nat)

  datatype Found = Found(rec: UserRecord, from: Source)

  /** The candidate names a real snapshot position when it came from the snapshot. */
  predicate Locates(st: Store, f: Found) {
    f.from.Snapshot? ==> f.from.index < |st.snapshot| && st.snapshot[f.from.index] == f.rec
  }

  /** The first lookup of `consumeQuota`: the store by id in daytime,
      otherwise the first snapshot entry with that id. */
  function Candidate(st: Store, id: string, daytime: bool): (r: Option<Found>)
    ensures r.Some? ==> Locates(st, r.value)
    ensures KeyedById(st.repo) && r.Some? ==> r.value.rec.id == id
    ensures daytime ==> (r.Some? <==> id in st.repo)
    ensures daytime && r.Some? ==> r.value == Found(st.repo[id], Repository)
    ensures !daytime ==> (r.Some? <==> FirstMatch(st.snapshot, id).Some?)
    ensures !daytime && r.Some? ==> r.value.from == Snapshot(FirstMatch(st.snapshot, id).value)
  {
    if daytime then
      if id in st.repo then Some(Found(st.repo[id], Repository)) else None
    else
      match FirstMatch(st.snapshot, id)
      case None => None
      case Some(i) => Some(Found(st.snapshot[i], Snapshot(i)))
  }

  /** The three outcomes of a consumption. */
  datatype Consumption = Consumed(user: UserRecord) | Exhausted | NotFound
  {
    /** What `consumeQuota` returns: the record, or `null` for both other outcomes. */
    function Reply(): Option<UserRecord> {
      if Consumed? then Some(user) else None
    }
  }

  datatype Step = Step(outcome: Consumption, after: Store)

  /** `decrementQuota`: a second, independent store lookup by the candidate's
      id decides whether the decremented candidate is saved; a candidate from
      the snapshot is the snapshot's own object, so its entry changes too. */
  function Decrement(st: Store, f: Found): Step
    requires Locates(st, f)
  {
    var user := f.rec;
    if user.quota > 0 then
      var decremented := user.(quota := user.quota - 1);
      var snapshot := if f.from.Snapshot? then st.snapshot[f.from.index := decremented] else st.snapshot;
      var repo := if user.id in st.repo then st.repo[user.id := decremented] else st.repo;
      Step(Consumed(decremented), Store(repo, snapshot))
    else
      Step(Exhausted, st)
  }

  /** `consumeQuota(id)` at a moment whose daytime flag is `daytime`. */
  function Consume(st: Store, id: string, daytime: bool): Step {
    match Candidate(st, id, daytime)
    case None => Step(NotFound, st)
    case Some(f) => Decrement(st, f)
  }

  /** The state after `n` consecutive calls of `consumeQuota(id)`. */
  function ConsumeRepeatedly(st: Store, id: string, daytime: bool, n: nat): Store {
    if n == 0 then st else Consume(ConsumeRepeatedly(st, id, daytime, n - 1), id, daytime).after
  }

  /** The ids present in the snapshot. */
  function SnapshotIds(s: seq<UserRecord>): set<string> {
    set r | r in s :: r.id
  }

  /** The quota reported for `k`: the stored one when the store has `k`,
      otherwise that of the first snapshot entry with `k`. */
  function QuotaOf(st: Store, k: string): int {
    if k in st.repo then st.repo[k].quota
    else match FirstMatch(st.snapshot, k)
      case Some(i) => st.snapshot[i].quota
      case None => 0
  }

  /** `getUsersQuota`: every store id and every snapshot id, each with its `QuotaOf`. */
  function QuotaView(st: Store): map<string, int> {
    map k | k in st.repo.Keys + SnapshotIds(st.snapshot) :: QuotaOf(st, k)
  }

  // ---------------------------------------------------------------------
  // Lemmas about the first snapshot match

  /** Appending an entry changes the first match only for an id not seen before. */
  lemma FirstMatchAppend(s: seq<UserRecord>, x: UserRecord, id: string)
    ensures FirstMatch(s + [x], id)
         == if FirstMatch(s, id).Some? then FirstMatch(s, id)
            else if x.id == id then Some(|s|) else None
  {
    var r := FirstMatch(s + [x], id);
    if FirstMatch(s, id).Some? {
      var i := FirstMatch(s, id).value;
      assert (s + [x])[i] == s[i];
    } else if x.id == id {
      assert (s + [x])[|s|] == x;
    } else {
      assert forall j :: 0 <= j < |s + [x]| ==> (s + [x])[j].id != id by {
        forall j | 0 <= j < |s + [x]| ensures (s + [x])[j].id != id {
          if j < |s| { assert (s + [x])[j] == s[j]; }
        }
      }
    }
  }

  /** Replacing an entry by one with the same id leaves every first match as it was. */
  lemma FirstMatchSameIdUpdate(s: seq<UserRecord>, i: nat, x: UserRecord, id: string)
    requires i < |s| && s[i].id == x.id
    ensures FirstMatch(s[i := x], id) == FirstMatch(s, id)
  {
    var t := s[i := x];
    assert forall j :: 0 <= j < |s| ==> t[j].id == s[j].id;
  }

  /** An id is a snapshot id exactly when some first match exists for it. */
  lemma SnapshotIdsHaveFirstMatch(s: seq<UserRecord>, id: string)
    ensures id in SnapshotIds(s) <==> FirstMatch(s, id).Some?
  {
    if id in SnapshotIds(s) {
      var r :| r in s && r.id == id;
      var j :| 0 <= j < |s| && s[j] == r;
    }
  }

  // ---------------------------------------------------------------------
  // Lemmas about one consumption

  /** "Not found" happens exactly when the source selected by the time of day
      has no record with the id, and then nothing changes. */
  lemma NotFoundChangesNothing(st: Store, id: string, daytime: bool)
    ensures Consume(st, id, daytime).outcome == NotFound
        <==> if daytime then id !in st.repo
             else forall j :: 0 <= j < |st.snapshot| ==> st.snapshot[j].id != id
    ensures Consume(st, id, daytime).outcome == NotFound ==> Consume(st, id, daytime).after == st
  {
  }

  /** "Exhausted" happens exactly when a candidate exists with quota <= 0; then
      nothing is decremented or saved, whichever store branch is taken. */
  lemma ExhaustedChangesNothing(st: Store, id: string, daytime: bool)
    ensures Consume(st, id, daytime).outcome == Exhausted
        <==> Candidate(st, id, daytime).Some? && Candidate(st, id, daytime).value.rec.quota <= 0
    ensures Consume(st, id, daytime).outcome == Exhausted ==> Consume(st, id, daytime).after == st
  {
  }

  /** A candidate with quota > 0 whose id is in the store: the reply has quota
      one lower, the store maps the id to exactly that record (even when the
      candidate came from the snapshot and its quota differs from the stored
      one), and no other store key changes. By day the snapshot stays; at
      night its first entry with the id is the decremented object too. */
  lemma ConsumeSavesWhenStored(st: Store, id: string, daytime: bool)
    requires KeyedById(st.repo)
    requires Candidate(st, id, daytime).Some?
    requires Candidate(st, id, daytime).value.rec.quota > 0
    requires id in st.repo
    ensures var c := Candidate(st, id, daytime).value.rec;
            var step := Consume(st, id, daytime);
            && step.outcome == Consumed(c.(quota := c.quota - 1))
            && step.after.repo == st.repo[id := c.(quota := c.quota - 1)]
            && step.after.repo.Keys == st.repo.Keys
            && (forall k :: k in st.repo && k != id ==> step.after.repo[k] == st.repo[k])
            && step.after.snapshot ==
                 (if daytime then st.snapshot
                  else st.snapshot[FirstMatch(st.snapshot, id).value := c.(quota := c.quota - 1)])
  {
    var f := Candidate(st, id, daytime).value;
    assert f.rec.id == id;
  }

  /** A candidate with quota > 0 whose id is not in the store: the reply has
      quota one lower and the store is untouched. Only the night path gets
      here; the snapshot keeps its length and ids, and its first entry with
      the id now holds the decremented record. */
  lemma ConsumeTransientWhenNotStored(st: Store, id: string, daytime: bool)
    requires Candidate(st, id, daytime).Some?
    requires Candidate(st, id, daytime).value.rec.quota > 0
    requires id !in st.repo
    ensures !daytime
    ensures var i := FirstMatch(st.snapshot, id).value;
            var c := st.snapshot[i];
            var step := Consume(st, id, daytime);
            && step.outcome == Consumed(c.(quota := c.quota - 1))
            && step.after.repo == st.repo
            && step.after.snapshot == st.snapshot[i := c.(quota := c.quota - 1)]
            && |step.after.snapshot| == |st.snapshot|
            && (forall j :: 0 <= j < |st.snapshot| ==> step.after.snapshot[j].id == st.snapshot[j].id)
  {
    var f := Candidate(st, id, daytime).value;
    assert f.rec.id == id;
  }

  /** In daytime the snapshot is never touched. */
  lemma DaytimeLeavesSnapshot(st: Store, id: string)
    ensures Consume(st, id, true).after.snapshot == st.snapshot
  {
  }

  /** A returned record belongs to the requested id and never has a negative quota. */
  lemma ConsumedQuotaNonNegative(st: Store, id: string, daytime: bool)
    requires KeyedById(st.repo)
    ensures Consume(st, id, daytime).outcome.Consumed? ==>
              && Consume(st, id, daytime).outcome.user.quota >= 0
              && Consume(st, id, daytime).outcome.user.id == id
  {
  }

  /** Consuming keeps every store row under its own id. */
  lemma ConsumeKeepsKeyedById(st: Store, id: string, daytime: bool)
    requires KeyedById(st.repo)
    ensures KeyedById(Consume(st, id, daytime).after.repo)
  {
  }

  /** After a successful consumption the next call finds, in the same place,
      exactly the record just returned. */
  lemma {:induction false} NextCandidateIsReply(st: Store, id: string, daytime: bool)
    requires KeyedById(st.repo)
    requires Consume(st, id, daytime).outcome.Consumed?
    ensures Candidate(Consume(st, id, daytime).after, id, daytime)
         == Some(Found(Consume(st, id, daytime).outcome.user, Candidate(st, id, daytime).value.from))
  {
    var f := Candidate(st, id, daytime).value;
    var after := Consume(st, id, daytime).after;
    var u := Consume(st, id, daytime).outcome.user;
    assert f.rec.id == id;
    if !daytime {
      var i := f.from.index;
      FirstMatchSameIdUpdate(st.snapshot, i, u, id);
      assert after.snapshot == st.snapshot[i := u];
    }
  }

  /** The outcome is decided by the candidate's quota alone. */
  lemma OutcomeOfCandidate(st: Store, id: string, daytime: bool)
    requires Candidate(st, id, daytime).Some?
    ensures var c := Candidate(st, id, daytime).value.rec;
            Consume(st, id, daytime).outcome ==
              (if c.quota > 0 then Consumed(c.(quota := c.quota - 1)) else Exhausted)
  {
  }

  /** After k calls on a candidate with quota >= k, the candidate sits in the
      same place with its quota lowered by k. */
  lemma {:induction false} CandidateAfterRepeats(st: Store, id: string, daytime: bool, k: nat)
    requires KeyedById(st.repo)
    requires Candidate(st, id, daytime).Some?
    requires k <= Candidate(st, id, daytime).value.rec.quota
    ensures KeyedById(ConsumeRepeatedly(st, id, daytime, k).repo)
    ensures var f := Candidate(st, id, daytime).value;
            Candidate(ConsumeRepeatedly(st, id, daytime, k), id, daytime) ==
              Some(Found(f.rec.(quota := f.rec.quota - k), f.from))
  {
    if k > 0 {
      var f := Candidate(st, id, daytime).value;
      CandidateAfterRepeats(st, id, daytime, k - 1);
      var prev := ConsumeRepeatedly(st, id, daytime, k - 1);
      assert ConsumeRepeatedly(st, id, daytime, k) == Consume(prev, id, daytime).after;
      OutcomeOfCandidate(prev, id, daytime);
      assert Consume(prev, id, daytime).outcome == Consumed(f.rec.(quota := f.rec.quota - k));
      ConsumeKeepsKeyedById(prev, id, daytime);
      NextCandidateIsReply(prev, id, daytime);
    }
  }

  /** A candidate starting at quota n >= 0 is consumed exactly n times: call
      k + 1 returns quota n - k - 1 while k < n, and the call after the n-th
      reports "exhausted". */
  lemma ConsumedExactlyQuotaTimes(st: Store, id: string, daytime: bool, k: nat)
    requires KeyedById(st.repo)
    requires Candidate(st, id, daytime).Some?
    requires k <= Candidate(st, id, daytime).value.rec.quota
    ensures var c := Candidate(st, id, daytime).value.rec;
            Consume(ConsumeRepeatedly(st, id, daytime, k), id, daytime).outcome ==
              (if k < c.quota then Consumed(c.(quota := c.quota - k - 1)) else Exhausted)
  {
    CandidateAfterRepeats(st, id, daytime, k);
    OutcomeOfCandidate(ConsumeRepeatedly(st, id, daytime, k), id, daytime);
  }

  // ---------------------------------------------------------------------
  // Lemmas about the quota view

  /** With an empty snapshot the view is the store's quota per id. */
  lemma QuotaViewOfStoreAlone(repo: map<string, UserRecord>, m: map<string, int>)
    requires m.Keys == repo.Keys
    requires forall k :: k in m ==> m[k] == repo[k].quota
    ensures QuotaView(Store(repo, [])) == m
  {
    assert SnapshotIds([]) == {};
  }

  /** The quota reported for one id after one more snapshot entry: unchanged
      for an id already reported, the new entry's quota for a new id. */
  lemma QuotaOfAppend(repo: map<string, UserRecord>, s: seq<UserRecord>, x: UserRecord, k: string)
    requires k in repo.Keys + SnapshotIds(s + [x])
    ensures k in repo.Keys + SnapshotIds(s) ==>
              QuotaOf(Store(repo, s + [x]), k) == QuotaOf(Store(repo, s), k)
    ensures k !in repo.Keys + SnapshotIds(s) ==>
              k == x.id && QuotaOf(Store(repo, s + [x]), k) == x.quota
  {
    FirstMatchAppend(s, x, k);
    SnapshotIdsHaveFirstMatch(s, k);
    SnapshotIdsHaveFirstMatch(s + [x], k);
  }

  /** Adding one snapshot entry to the view is `putIfAbsent`. */
  lemma QuotaViewPutIfAbsent(repo: map<string, UserRecord>, s: seq<UserRecord>, x: UserRecord)
    ensures var m := QuotaView(Store(repo, s));
            QuotaView(Store(repo, s + [x])) == if x.id in m then m else m[x.id := x.quota]
  {
    var m := QuotaView(Store(repo, s));
    var m' := QuotaView(Store(repo, s + [x]));
    var t := if x.id in m then m else m[x.id := x.quota];
    assert m'.Keys == t.Keys by {
      SnapshotIdsAppend(s, x);
    }
    assert forall k :: k in t ==> m'[k] == t[k] by {
      forall k | k in t ensures m'[k] == t[k] {
        QuotaOfAppend(repo, s, x, k);
      }
    }
  }

  /** Appending an entry adds its id to the snapshot ids. */
  lemma SnapshotIdsAppend(s: seq<UserRecord>, x: UserRecord)
    ensures SnapshotIds(s + [x]) == SnapshotIds(s) + {x.id}
  {
    assert forall r :: r in s + [x] <==> r in s || r == x;
  }

  /** The view after a successful consumption reports the returned quota for
      the id (also on the night path without a store row, because the
      snapshot's own entry was decremented), and every other id as before. */
  lemma {:induction false} QuotaViewAfterConsume(st: Store, id: string, daytime: bool)
    requires KeyedById(st.repo)
    requires Consume(st, id, daytime).outcome.Consumed?
    ensures var after := Consume(st, id, daytime).after;
            && QuotaView(after).Keys == QuotaView(st).Keys
            && id in QuotaView(after)
            && QuotaView(after)[id] == Consume(st, id, daytime).outcome.user.quota
            && forall k :: k in QuotaView(st) && k != id ==> QuotaView(after)[k] == QuotaView(st)[k]
  {
    var f := Candidate(st, id, daytime).value;
    var after := Consume(st, id, daytime).after;
    var u := Consume(st, id, daytime).outcome.user;
    assert f.rec.id == id;
    if daytime {
      assert after == Store(st.repo[id := u], st.snapshot);
    } else {
      var i := f.from.index;
      assert after.snapshot == st.snapshot[i := u];
      SameIdUpdateKeepsView(st.repo, after.repo, st.snapshot, i, u, id);
    }
  }

  /** Replacing a snapshot entry by one with the same id and changing at most
      the store row of that id changes the view at that id only, to the new entry's quota,
      when the replaced entry is the first with that id. */
  lemma SameIdUpdateKeepsView(repo: map<string, UserRecord>, repo': map<string, UserRecord>,
                              s: seq<UserRecord>, i: nat, x: UserRecord, id: string)
    requires FirstMatch(s, id) == Some(i) && x.id == id
    requires repo' == if id in repo then repo[id := x] else repo
    ensures var v := QuotaView(Store(repo, s));
            var v' := QuotaView(Store(repo', s[i := x]));
            && v'.Keys == v.Keys
            && id in v'
            && v'[id] == x.quota
            && forall k :: k in v && k != id ==> v'[k] == v[k]
  {
    var s' := s[i := x];
    var v := QuotaView(Store(repo, s));
    var v' := QuotaView(Store(repo', s'));
    assert v'.Keys == v.Keys by {
      SameIdUpdateKeepsIds(s, i, x);
      assert repo'.Keys == repo.Keys;
    }
    assert forall k :: k in v ==> v'[k] == if k == id then x.quota else v[k] by {
      forall k | k in v ensures v'[k] == if k == id then x.quota else v[k] {
        QuotaOfSameIdUpdate(repo, repo', s, i, x, id, k);
      }
    }
    assert id in v by {
      SnapshotIdsHaveFirstMatch(s, id);
    }
  }

  /** The per-id form of `SameIdUpdateKeepsView`. */
  lemma QuotaOfSameIdUpdate(repo: map<string, UserRecord>, repo': map<string, UserRecord>,
                            s: seq<UserRecord>, i: nat, x: UserRecord, id: string, k: string)
    requires FirstMatch(s, id) == Some(i) && x.id == id
    requires repo' == if id in repo then repo[id := x] else repo
    ensures QuotaOf(Store(repo', s[i := x]), k) == if k == id then x.quota else QuotaOf(Store(repo, s), k)
  {
    FirstMatchSameIdUpdate(s, i, x, k);
  }

  /** Replacing an entry by one with the same id keeps the set of snapshot ids. */
  lemma SameIdUpdateKeepsIds(s: seq<UserRecord>, i: nat, x: UserRecord)
    requires i < |s| && s[i].id == x.id
    ensures SnapshotIds(s[i := x]) == SnapshotIds(s)
  {
    forall k ensures k in SnapshotIds(s[i := x]) <==> k in SnapshotIds(s) {
      FirstMatchSameIdUpdate(s, i, x, k);
      SnapshotIdsHaveFirstMatch(s, k);
      SnapshotIdsHaveFirstMatch(s[i := x], k);
    }
  }

  // ---------------------------------------------------------------------
  // Worked cases

  /** A store row wins over a snapshot entry with the same id: store
      {a: 2}, snapshot [a: 9, b: 4] gives {a: 2, b: 4}. */
  lemma QuotaViewStoreWins(a: UserRecord, a': UserRecord, b: UserRecord)
    requires a.id == a'.id == "a" && b.id == "b"
    requires a.quota == 2 && a'.quota == 9 && b.quota == 4
    ensures QuotaView(Store(map["a" := a], [a', b])) == map["a" := 2, "b" := 4]
  {
    var st := Store(map["a" := a], [a', b]);
    assert SnapshotIds(st.snapshot) == {"a", "b"} by {
      assert st.snapshot[0] == a' && st.snapshot[1] == b;
    }
    assert FirstMatch(st.snapshot, "b") == Some(1);
  }

  /** At night the snapshot entry is the candidate even when the store has
      the id: a row exhausted at quota 0 is overwritten with the snapshot's
      quota minus one, and the call succeeds. */
  lemma NightPathOverwritesStoredQuota(stored: UserRecord, entry: UserRecord)
    requires stored.id == entry.id && stored.quota == 0 && entry.quota == 5
    ensures var step := Consume(Store(map[entry.id := stored], [entry]), entry.id, false);
            && step.outcome == Consumed(entry.(quota := 4))
            && step.after.repo[entry.id].quota == 4
  {
    assert FirstMatch([entry], entry.id) == Some(0);
  }
}
