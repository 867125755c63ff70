// The entries of an opened vault: lookups that never pick the first of several, and updates
// that touch the one entry they name.
module Entries {
  import opened Bytes
  import opened Results
  import opened Orders
  import opened Policies

  // A KeePass entry. `id`, `policy` and `secret` are fields it may lack; `inRoot` tells
  // whether the database hands it out for changing.
  datatype Entry = Entry(uuid: nat, id: Option<string>, title: Option<string>, policy: Option<PolicyText>,
                         secret: Option<Text>, inRoot: bool)

  type Db = seq<Entry>

  datatype View = View(id: string, title: Option<string>, policy: Policy, hasSecret: bool)

  // ---- what a lookup means ------------------------------------------------------------

  function Matches(db: Db, id: string): seq<Entry> {
    if db == [] then []
    else if db[0].id == Some(id) then [db[0]] + Matches(db[1..], id)
    else Matches(db[1..], id)
  }

  predicate HasSecret(e: Entry) {
    e.secret.Some? && e.secret.value != []
  }

  function ViewOf(e: Entry, id: string): Result<Option<View>> {
    if e.policy.None? || Parse(e.policy.value).None? then Err(MalformedPolicy)
    else Ok(Some(View(id, e.title, Parse(e.policy.value).value, HasSecret(e))))
  }

  function SecretOf(e: Entry): Result<Text> {
    if HasSecret(e) then Ok(e.secret.value) else Err(MalformedPolicy)
  }

  function Find(db: Db, id: string): Result<Option<View>> {
    var found := Matches(db, id);
    if |found| == 0 then Ok(None)
    else if |found| == 1 then ViewOf(found[0], id)
    else Err(MalformedPolicy)
  }

  function Secret(db: Db, id: string): Result<Text> {
    var found := Matches(db, id);
    if |found| == 0 then Err(UnknownEntry)
    else if |found| == 1 then SecretOf(found[0])
    else Err(MalformedPolicy)
  }

  function Contains(db: Db, id: string): bool {
    Matches(db, id) != []
  }

  predicate UniqueUuids(db: Db) {
    forall i, j | 0 <= i < j < |db| :: db[i].uuid != db[j].uuid
  }

  // ---- order does not matter --------------------------------------------------------------

  lemma {:induction false} MatchesCount(db: Db, id: string, e: Entry)
    ensures multiset(Matches(db, id))[e] == if e.id == Some(id) then multiset(db)[e] else 0
  {
    if db != [] {
      assert db == [db[0]] + db[1..];
      MatchesCount(db[1..], id, e);
    }
  }

  lemma MatchesPermuted(a: Db, b: Db, id: string)
    requires multiset(a) == multiset(b)
    ensures multiset(Matches(a, id)) == multiset(Matches(b, id))
    ensures |Matches(a, id)| == |Matches(b, id)|
    ensures |Matches(a, id)| == 1 ==> Matches(a, id) == Matches(b, id)
  {
    var ma, mb := Matches(a, id), Matches(b, id);
    forall e ensures multiset(ma)[e] == multiset(mb)[e] {
      MatchesCount(a, id, e);
      MatchesCount(b, id, e);
    }
    assert multiset(ma) == multiset(mb);
    assert |ma| == |multiset(ma)| == |multiset(mb)| == |mb|;
    if |ma| == 1 {
      assert ma[0] in multiset(mb);
    }
  }

  // No lookup depends on the order of the entries.
  lemma LookupsIgnoreOrder(a: Db, b: Db, id: string)
    requires multiset(a) == multiset(b)
    ensures Find(a, id) == Find(b, id)
    ensures Secret(a, id) == Secret(b, id)
    ensures Contains(a, id) == Contains(b, id)
    ensures Duplicates(Ids(a)) == Duplicates(Ids(b))
  {
    MatchesPermuted(a, b, id);
    forall other ensures Tally(Ids(a), other) == Tally(Ids(b), other) {
      MatchesPermuted(a, b, other);
      IdsTally(a, other);
      IdsTally(b, other);
    }
    DuplicatesIgnoreOrder(Ids(a), Ids(b));
  }

  predicate Duplicated(db: Db, id: string) {
    |Matches(db, id)| > 1
  }

  // What is read of an entry of ours before its policy is parsed.
  datatype RawEntry = RawEntry(id: string, title: Option<string>, policy: Option<PolicyText>, hasSecret: bool)

  function Raw(e: Entry): RawEntry
    requires e.id.Some?
  {
    RawEntry(e.id.value, e.title, e.policy, HasSecret(e))
  }

  function Raws(db: Db): seq<RawEntry> {
    if db == [] then []
    else if db[0].id.Some? then [Raw(db[0])] + Raws(db[1..])
    else Raws(db[1..])
  }

  // The ids of our entries.
  function Ids(db: Db): seq<string> {
    if db == [] then []
    else (if db[0].id.Some? then [db[0].id.value] else []) + Ids(db[1..])
  }

  lemma {:induction false} IdsTally(db: Db, id: string)
    ensures Tally(Ids(db), id) == |Matches(db, id)|
  {
    if db != [] {
      IdsTally(db[1..], id);
      if db[0].id.Some? {
        assert Ids(db)[1..] == Ids(db[1..]);
      } else {
        assert Ids(db) == Ids(db[1..]);
      }
    }
  }

  lemma {:induction false} RawsHaveIds(db: Db)
    ensures |Raws(db)| == |Ids(db)| && forall i | 0 <= i < |Ids(db)| :: Raws(db)[i].id == Ids(db)[i]
  {
    if db != [] {
      RawsHaveIds(db[1..]);
    }
  }

  // The entries that have an id are read as they are, and in order.
  lemma {:induction false} RawsSplit(front: Db, e: Entry, back: Db)
    ensures Raws(front + [e] + back)
            == Raws(front)
               + (if e.id.None? then []
                  else [RawEntry(e.id.value, e.title, e.policy, e.secret.Some? && |e.secret.value| > 0)])
               + Raws(back)
  {
    if front == [] {
      assert ([e] + back)[1..] == back && front + [e] + back == [e] + back;
    } else {
      assert (front + [e] + back)[1..] == front[1..] + [e] + back;
      RawsSplit(front[1..], e, back);
    }
  }

  lemma DuplicateIdsMeaning(db: Db, id: string)
    ensures id in Duplicates(Ids(db)) <==> Duplicated(db, id)
  {
    IdsTally(db, id);
  }

  lemma {:induction false} MatchesMeaning(db: Db, id: string)
    ensures forall e :: e in Matches(db, id) <==> e in db && e.id == Some(id)
    ensures |Matches(db, id)| == 0 <==> forall i | 0 <= i < |db| :: db[i].id != Some(id)
    ensures |Matches(db, id)| > 1 <==>
              exists i, j :: 0 <= i < j < |db| && db[i].id == Some(id) && db[j].id == Some(id)
  {
    if db != [] {
      var tail := db[1..];
      MatchesMeaning(tail, id);
      assert forall e :: e in db <==> e == db[0] || e in tail;
      forall i, j | 0 <= i < j < |tail| && tail[i].id == Some(id) && tail[j].id == Some(id)
        ensures 0 <= i + 1 < j + 1 < |db| && db[i + 1].id == Some(id) && db[j + 1].id == Some(id)
      {
      }
      if db[0].id == Some(id) && |Matches(tail, id)| > 0 {
        var j :| 0 <= j < |tail| && tail[j].id == Some(id);
        assert db[j + 1].id == Some(id);
      }
      forall i, j | 0 <= i < j < |db| && db[i].id == Some(id) && db[j].id == Some(id)
        ensures tail[j - 1].id == Some(id) && (i > 0 ==> tail[i - 1].id == Some(id))
      {
      }
    }
  }

  // A policy and a secret found under one id come from one and the same entry, which is the
  // only one of that id.
  lemma OneEntryServesBoth(db: Db, id: string) returns (k: nat)
    requires Find(db, id).Ok? && Find(db, id).value.Some? && Secret(db, id).Ok?
    ensures k < |db| && db[k].id == Some(id)
    ensures forall i | 0 <= i < |db| :: db[i].id == Some(id) ==> i == k
    ensures ViewOf(db[k], id) == Find(db, id) && SecretOf(db[k]) == Secret(db, id)
  {
    MatchesMeaning(db, id);
    var e := Matches(db, id)[0];
    assert e in db;
    k :| 0 <= k < |db| && db[k] == e;
  }

  // ---- updates ---------------------------------------------------------------------------

  // Where the first entry of an id is.
  function Position(db: Db, id: string): (k: nat)
    requires Contains(db, id)
    ensures k < |db| && db[k].id == Some(id)
    ensures forall i | 0 <= i < k :: db[i].id != Some(id)
  {
    if db[0].id == Some(id) then 0 else 1 + Position(db[1..], id)
  }

  // The position of the only entry of that id, if it may be changed.
  function Locate(db: Db, id: string): Result<nat> {
    if !Contains(db, id) then Err(UnknownEntry)
    else if Duplicated(db, id) then Err(MalformedPolicy)
    else if !db[Position(db, id)].inRoot then Err(UnknownEntry)
    else Ok(Position(db, id))
  }

  function SetPolicy(db: Db, id: string, policy: Policy): Result<Db> {
    match Locate(db, id)
    case Err(e) => Err(e)
    case Ok(k) => Ok(db[k := db[k].(policy := Some(Document(policy)))])
  }

  function SetSecret(db: Db, id: string, secret: Text): Result<Db> {
    match Locate(db, id)
    case Err(e) => Err(e)
    case Ok(k) => Ok(db[k := db[k].(secret := Some(secret))])
  }

  function Delete(db: Db, id: string): Result<Db> {
    match Locate(db, id)
    case Err(e) => Err(e)
    case Ok(k) => Ok(db[..k] + db[k + 1..])
  }

  lemma {:induction false} OnlyMatch(db: Db, id: string)
    requires |Matches(db, id)| == 1
    ensures Matches(db, id) == [db[Position(db, id)]]
    ensures forall i | 0 <= i < |db| :: db[i].id == Some(id) ==> i == Position(db, id)
  {
    if db[0].id == Some(id) {
      assert Matches(db[1..], id) == [];
      MatchesMeaning(db[1..], id);
      forall i | 0 < i < |db| ensures db[i].id != Some(id) {
        assert db[1..][i - 1] == db[i];
      }
    } else {
      OnlyMatch(db[1..], id);
      forall i | 0 < i < |db| && db[i].id == Some(id) ensures i == Position(db, id) {
        assert db[1..][i - 1] == db[i];
      }
    }
  }

  // ---- what the lookups answer, said of the one entry of an id --------------------------------

  // The entry holds a policy this release understands.
  predicate Readable(e: Entry) {
    && e.policy.Some? && e.policy.value.Document?
    && e.policy.value.policy.schema == "kpexec.policy.v1"
  }

  lemma FindExactly(db: Db, id: string)
    ensures var found := Matches(db, id);
            Find(db, id)
            == if found == [] then Ok(None)
               else if |found| > 1 || !Readable(found[0]) then Err(MalformedPolicy)
               else Ok(Some(View(id, found[0].title, found[0].policy.value.policy,
                                 found[0].secret.Some? && |found[0].secret.value| > 0)))
  {
  }

  lemma SecretExactly(db: Db, id: string)
    ensures var found := Matches(db, id);
            Secret(db, id)
            == if found == [] then Err(UnknownEntry)
               else if |found| > 1 || found[0].secret.None? || |found[0].secret.value| == 0 then Err(MalformedPolicy)
               else Ok(found[0].secret.value)
  {
  }

  // An update needs the one entry of the id, at its place and open for changing.
  lemma LocateExactly(db: Db, id: string)
    ensures var found := Matches(db, id);
            if found == [] then Locate(db, id) == Err(UnknownEntry)
            else if |found| > 1 then Locate(db, id) == Err(MalformedPolicy)
            else found == [db[Position(db, id)]]
                 && Locate(db, id) == if found[0].inRoot then Ok(Position(db, id)) else Err(UnknownEntry)
  {
    if |Matches(db, id)| == 1 {
      OnlyMatch(db, id);
    }
  }
}
