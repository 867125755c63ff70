// The opened vault as the program holds it: lookups and updates as loops over its entries.
module OpenVault {
  import opened Bytes
  import opened Results
  import opened Orders
  import opened Policies
  import opened Entries

  class Vault {
    var db: Db

    constructor (db: Db)
      ensures this.db == db
    {
      this.db := db;
    }

    // The entries of one id, as `raw_entries` followed by a filter finds them.
    method EntriesOf(id: string) returns (found: seq<Entry>)
      ensures found == Matches(db, id)
    {
      found := [];
      assert db[0..] == db;
      for i := 0 to |db|
        invariant found + Matches(db[i..], id) == Matches(db, id)
      {
        assert db[i..][0] == db[i] && db[i..][1..] == db[i + 1..];
        if db[i].id == Some(id) {
          found := found + [db[i]];
        }
      }
    }

    method FindEntry(id: string) returns (r: Result<Option<View>>)
      ensures r == Find(db, id)
    {
      var matches := EntriesOf(id);
      if |matches| == 0 {
        return Ok(None);
      }
      if |matches| > 1 {
        return Err(MalformedPolicy);
      }
      r := ViewOf(matches[0], id);
    }

    method ContainsId(id: string) returns (there: bool)
      ensures there == Contains(db, id)
    {
      there := false;
      for i := 0 to |db|
        invariant !there && Contains(db[i..], id) == Contains(db, id)
      {
        assert db[i..][0] == db[i] && db[i..][1..] == db[i + 1..];
        if db[i].id == Some(id) {
          there := true;
          break;
        }
      }
    }

    // The entries with an id, whatever else they have.
    method RawEntries() returns (raws: seq<RawEntry>)
      ensures raws == Raws(db)
    {
      hide Raw;
      raws := [];
      assert db[0..] == db;
      for i := 0 to |db|
        invariant raws + Raws(db[i..]) == Raws(db)
      {
        assert db[i..][0] == db[i] && db[i..][1..] == db[i + 1..];
        if db[i].id.Some? {
          assert raws + ([Raw(db[i])] + Raws(db[i + 1..])) == (raws + [Raw(db[i])]) + Raws(db[i + 1..]);
          raws := raws + [Raw(db[i])];
        }
      }
    }

    method DuplicateIds() returns (ids: seq<string>)
      ensures ids == Duplicates(Ids(db))
      ensures forall id :: id in ids <==> Duplicated(db, id)
    {
      var raws := RawEntries();
      RawsHaveIds(db);
      var all := seq(|raws|, i requires 0 <= i < |raws| => raws[i].id);
      assert all == Ids(db);
      ids := Repeated(all);
      forall id ensures id in ids <==> Duplicated(db, id) {
        DuplicateIdsMeaning(db, id);
      }
    }

    method EntryIdOf(id: string) returns (r: Result<nat>)
      ensures match r
              case Ok(uuid) => |Matches(db, id)| == 1 && Matches(db, id)[0].uuid == uuid
              case Err(e) => e == (if |Matches(db, id)| == 0 then UnknownEntry else MalformedPolicy)
                             && |Matches(db, id)| != 1
    {
      var found := EntriesOf(id);
      if |found| == 0 {
        r := Err(UnknownEntry);
      } else if |found| == 1 {
        r := Ok(found[0].uuid);
      } else {
        r := Err(MalformedPolicy);
      }
    }

    // The first entry with that KeePass identity.
    method ByUuid(uuid: nat) returns (k: nat)
      ensures k <= |db| && (k < |db| ==> db[k].uuid == uuid)
      ensures forall i | 0 <= i < k :: db[i].uuid != uuid
    {
      k := 0;
      while k < |db| && db[k].uuid != uuid
        invariant k <= |db| && forall i | 0 <= i < k :: db[i].uuid != uuid
      {
        k := k + 1;
      }
    }

    lemma ByUuidIsPosition(id: string, uuid: nat, k: nat)
      requires UniqueUuids(db) && |Matches(db, id)| == 1 && Matches(db, id)[0].uuid == uuid
      requires k <= |db| && (k < |db| ==> db[k].uuid == uuid)
      requires forall i | 0 <= i < k :: db[i].uuid != uuid
      ensures k < |db| && k == Position(db, id) && db[k] == Matches(db, id)[0]
    {
      OnlyMatch(db, id);
    }

    method ReadSecret(id: string) returns (r: Result<Text>)
      requires UniqueUuids(db)
      ensures r == Secret(db, id)
    {
      var entryId := EntryIdOf(id);
      if entryId.Err? {
        return Err(entryId.status);
      }
      var k := ByUuid(entryId.value);
      ByUuidIsPosition(id, entryId.value, k);
      r := SecretOf(db[k]);
    }

    // The new entry is found under its id, alone if there was none, and no other id notices.
    method InsertEntry(uuid: nat, id: string, title: string, secret: Text, policy: Policy)
      modifies this
      ensures db == old(db) + [Entry(uuid, Some(id), Some(title), Some(Document(policy)), Some(secret), true)]
      ensures forall other | other != id :: Matches(db, other) == Matches(old(db), other)
      ensures |Matches(db, id)| == |Matches(old(db), id)| + 1
      ensures !Contains(old(db), id) && policy.schema == POLICY_SCHEMA ==>
                Find(db, id) == Ok(Some(View(id, Some(title), policy, secret != [])))
      ensures !Contains(old(db), id) && secret != [] ==> Secret(db, id) == Ok(secret)
    {
      ghost var before := db;
      var e := Entry(uuid, Some(id), Some(title), Some(Document(policy)), Some(secret), true);
      db := db + [e];
      forall other ensures Matches(db, other) == Matches(before, other) + if id == other then [e] else [] {
        MatchesAppend(before, e, other);
      }
    }

    // The position to change, by way of the KeePass identity.
    method EntryMut(id: string) returns (r: Result<nat>)
      requires UniqueUuids(db)
      ensures r == Locate(db, id)
    {
      var entryId := EntryIdOf(id);
      if entryId.Err? {
        return Err(entryId.status);
      }
      var k := ByUuid(entryId.value);
      ByUuidIsPosition(id, entryId.value, k);
      r := if db[k].inRoot then Ok(k) else Err(UnknownEntry);
    }

    method UpdatePolicy(id: string, policy: Policy) returns (r: Result<()>)
      requires UniqueUuids(db)
      modifies this
      ensures match SetPolicy(old(db), id, policy)
              case Ok(changed) => r.Ok? && db == changed
              case Err(e) => r == Err(e) && db == old(db)
    {
      var k := EntryMut(id);
      match k {
        case Err(e) => r := Err(e);
        case Ok(k) =>
          db := db[k := db[k].(policy := Some(Document(policy)))];
          r := Ok(());
      }
    }

    method UpdateSecret(id: string, secret: Text) returns (r: Result<()>)
      requires UniqueUuids(db)
      modifies this
      ensures match SetSecret(old(db), id, secret)
              case Ok(changed) => r.Ok? && db == changed
              case Err(e) => r == Err(e) && db == old(db)
    {
      var k := EntryMut(id);
      match k {
        case Err(e) => r := Err(e);
        case Ok(k) =>
          db := db[k := db[k].(secret := Some(secret))];
          r := Ok(());
      }
    }

    method RemoveEntry(id: string) returns (r: Result<()>)
      requires UniqueUuids(db)
      modifies this
      ensures match Delete(old(db), id)
              case Ok(changed) => r.Ok? && db == changed
              case Err(e) => r == Err(e) && db == old(db)
    {
      var k := EntryMut(id);
      match k {
        case Err(e) => r := Err(e);
        case Ok(k) =>
          db := db[..k] + db[k + 1..];
          r := Ok(());
      }
    }
  }

  lemma {:induction false} MatchesAppend(db: Db, e: Entry, id: string)
    ensures Matches(db + [e], id) == Matches(db, id) + if e.id == Some(id) then [e] else []
  {
    if db == [] {
      assert db + [e] == [e];
    } else {
      assert (db + [e])[1..] == db[1..] + [e];
      MatchesAppend(db[1..], e, id);
    }
  }
}
