// `kpexec check`: a second, read-only judge of a vault's policies and pins.
module Check {
  import opened Results
  import opened Orders
  import opened Policies
  import opened Pins
  import opened Entries
  import opened OpenVault
  import opened Handlers

  datatype Level = Good | Warn | Fail

  datatype Finding =
    | IdsUnique | DuplicateId | NoEntries | NoSuchEntry
    | PolicyParses | PolicyBroken | NoSecret | DuplicateName
    | PinCurrent | PinStale | Unpinned | Unenforceable | ExeBroken

  // `id` and `name`: the entry and command concerned, if any.
  datatype Check = Check(level: Level, id: string, name: string, finding: Finding)

  predicate AnyFail(checks: seq<Check>) {
    exists c | c in checks :: c.level == Fail
  }

  // ---- what is reported ---------------------------------------------------------------------

  // About the first command of that name.
  function PinCheck(id: string, commands: seq<Command>, name: string, fs: FileSystem): seq<Check> {
    match FindCommand(commands, name)
    case None => []
    case Some(c) =>
      match Compute(c.exe, fs)
      case Err(_) => [Check(Fail, id, name, ExeBroken)]
      case Ok(found) =>
        match c.sha256
        case None => [Check(Warn, id, name, Unpinned)]
        case Some(recorded) =>
          if RequireEnforceable(found.canonical, fs).Err? then [Check(Fail, id, name, Unenforceable)]
          else if EqIgnoreCase(recorded, found.sha256) then [Check(Good, id, name, PinCurrent)]
          else [Check(Warn, id, name, PinStale)]
  }

  // About the first `n` commands.
  function PinChecks(id: string, commands: seq<Command>, n: nat, fs: FileSystem): seq<Check>
    requires n <= |commands|
  {
    if n == 0 then [] else PinChecks(id, commands, n - 1, fs) + PinCheck(id, commands, commands[n - 1].name, fs)
  }

  // One failure for each of the first `n` repeated command names.
  function DuplicateNameChecks(id: string, names: seq<string>, n: nat): seq<Check>
    requires n <= |names|
  {
    if n == 0 then []
    else DuplicateNameChecks(id, names, n - 1) + [Check(Fail, id, names[n - 1], DuplicateName)]
  }

  function SecretChecks(id: string, hasSecret: bool): seq<Check> {
    [Check(Good, id, "", PolicyParses)] + if hasSecret then [] else [Check(Warn, id, "", NoSecret)]
  }

  function CommandChecks(id: string, commands: seq<Command>, fs: FileSystem): seq<Check> {
    var names := Duplicates(Names(commands));
    DuplicateNameChecks(id, names, |names|) + PinChecks(id, commands, |commands|, fs)
  }

  function EntryChecks(db: Db, id: string, fs: FileSystem): seq<Check> {
    match Find(db, id)
    case Err(_) => [Check(Fail, id, "", PolicyBroken)]
    case Ok(None) => []
    case Ok(Some(view)) => SecretChecks(id, view.hasSecret) + CommandChecks(id, view.policy.commands, fs)
  }

  predicate Skipped(db: Db, id: string, only: Option<string>) {
    (only.Some? && id != only.value) || Duplicated(db, id)
  }

  // About the first `n` of our entries.
  function EntriesChecks(db: Db, n: nat, only: Option<string>, fs: FileSystem): seq<Check>
    requires n <= |Ids(db)|
  {
    if n == 0 then []
    else
      EntriesChecks(db, n - 1, only, fs)
      + if Skipped(db, Ids(db)[n - 1], only) then [] else EntryChecks(db, Ids(db)[n - 1], fs)
  }

  function DuplicateIdChecks(ids: seq<string>, n: nat): seq<Check>
    requires n <= |ids|
  {
    if n == 0 then [] else DuplicateIdChecks(ids, n - 1) + [Check(Fail, ids[n - 1], "", DuplicateId)]
  }

  function UniquenessChecks(db: Db): seq<Check> {
    var ids := Duplicates(Ids(db));
    if ids == [] then [Check(Good, "", "", IdsUnique)] else DuplicateIdChecks(ids, |ids|)
  }

  function EmptyChecks(db: Db): seq<Check> {
    if Ids(db) == [] then [Check(Warn, "", "", NoEntries)] else []
  }

  function MissingChecks(db: Db, only: Option<string>): seq<Check> {
    if only.Some? && !Contains(db, only.value) then [Check(Fail, only.value, "", NoSuchEntry)] else []
  }

  function ReportOf(db: Db, only: Option<string>, fs: FileSystem): seq<Check> {
    ((UniquenessChecks(db) + EmptyChecks(db)) + EntriesChecks(db, |Ids(db)|, only, fs)) + MissingChecks(db, only)
  }

  // ---- what a vault must be to pass -------------------------------------------------------

  // The executable can be hashed, and a recorded pin can be enforced; a stale or missing pin
  // only warns.
  predicate Runnable(c: Command, fs: FileSystem) {
    Hashable(c.exe, fs) && (c.sha256.Some? ==> Pinnable(c.exe, fs))
  }

  predicate EntryPasses(db: Db, id: string, fs: FileSystem) {
    && RequireEntry(db, id).Ok?
    && var commands := RequireEntry(db, id).value.policy.commands;
       UniqueNames(commands) && forall c | c in commands :: Runnable(c, fs)
  }

  ghost predicate Passes(db: Db, only: Option<string>, fs: FileSystem) {
    && (forall id: string :: !Duplicated(db, id))
    && (only.Some? ==> Contains(db, only.value))
    && (forall id: string :: Contains(db, id) && (only.None? || only.value == id) ==> EntryPasses(db, id, fs))
  }

  lemma FailsInEither(a: seq<Check>, b: seq<Check>)
    ensures AnyFail(a + b) <==> AnyFail(a) || AnyFail(b)
  {
    assert forall c :: c in a + b <==> c in a || c in b;
  }

  lemma FailsInOne(c: Check)
    ensures AnyFail([c]) <==> c.level == Fail
    ensures !AnyFail([])
  {
    assert c in [c];
  }

  lemma {:induction false} NamesFail(id: string, names: seq<string>, n: nat)
    requires n <= |names|
    ensures AnyFail(DuplicateNameChecks(id, names, n)) <==> n > 0
    ensures AnyFail(DuplicateIdChecks(names, n)) <==> n > 0
  {
    if n > 0 {
      NamesFail(id, names, n - 1);
      FailsInEither(DuplicateNameChecks(id, names, n - 1), [Check(Fail, id, names[n - 1], DuplicateName)]);
      FailsInEither(DuplicateIdChecks(names, n - 1), [Check(Fail, names[n - 1], "", DuplicateId)]);
      FailsInOne(Check(Fail, id, names[n - 1], DuplicateName));
      FailsInOne(Check(Fail, names[n - 1], "", DuplicateId));
    }
  }

  lemma {:induction false} PinChecksFail(id: string, commands: seq<Command>, n: nat, fs: FileSystem)
    requires n <= |commands| && UniqueNames(commands)
    ensures AnyFail(PinChecks(id, commands, n, fs)) <==> exists k :: 0 <= k < n && !Runnable(commands[k], fs)
  {
    hide PinCheck, AnyFail, Runnable;
    if n == 0 {
      FailsInOne(Check(Good, id, "", PinCurrent));
    } else {
      PinChecksFail(id, commands, n - 1, fs);
      FindCommandUnique(commands, n - 1);
      PinCheckFails(id, commands, n - 1, fs);
      FailsInEither(PinChecks(id, commands, n - 1, fs), PinCheck(id, commands, commands[n - 1].name, fs));
    }
  }

  lemma PinCheckFails(id: string, commands: seq<Command>, k: nat, fs: FileSystem)
    requires k < |commands| && FindCommand(commands, commands[k].name) == Some(commands[k])
    ensures AnyFail(PinCheck(id, commands, commands[k].name, fs)) <==> !Runnable(commands[k], fs)
  {
    hide AnyFail, FindCommand, Compute, EqIgnoreCase;
    ComputeExactly(commands[k].exe, fs);
    var checks := PinCheck(id, commands, commands[k].name, fs);
    FailsInOne(checks[0]);
    assert checks == [checks[0]];
  }

  lemma CommandsFail(id: string, commands: seq<Command>, fs: FileSystem)
    ensures AnyFail(CommandChecks(id, commands, fs)) <==>
              !(UniqueNames(commands) && forall c | c in commands :: Runnable(c, fs))
  {
    hide PinChecks, DuplicateNameChecks, AnyFail, Duplicates;
    var names := Duplicates(Names(commands));
    FailsInEither(DuplicateNameChecks(id, names, |names|), PinChecks(id, commands, |commands|, fs));
    NamesFail(id, names, |names|);
    DuplicateNamesMeaning(commands);
    if UniqueNames(commands) {
      PinChecksFail(id, commands, |commands|, fs);
    }
  }

  lemma EntryFails(db: Db, id: string, fs: FileSystem)
    ensures AnyFail(EntryChecks(db, id, fs)) <==> Find(db, id) != Ok(None) && !EntryPasses(db, id, fs)
  {
    hide CommandChecks, AnyFail;
    match Find(db, id) {
      case Err(_) => FailsInOne(Check(Fail, id, "", PolicyBroken));
      case Ok(None) => FailsInOne(Check(Fail, id, "", PolicyBroken));
      case Ok(Some(view)) =>
        var secret := if view.hasSecret then [] else [Check(Warn, id, "", NoSecret)];
        FailsInEither([Check(Good, id, "", PolicyParses)], secret);
        FailsInOne(Check(Good, id, "", PolicyParses));
        FailsInOne(Check(Warn, id, "", NoSecret));
        FailsInEither(SecretChecks(id, view.hasSecret), CommandChecks(id, view.policy.commands, fs));
        CommandsFail(id, view.policy.commands, fs);
    }
  }

  lemma {:induction false} EntriesFail(db: Db, n: nat, only: Option<string>, fs: FileSystem)
    requires n <= |Ids(db)|
    ensures AnyFail(EntriesChecks(db, n, only, fs)) <==>
              exists k :: 0 <= k < n && !Skipped(db, Ids(db)[k], only) && AnyFail(EntryChecks(db, Ids(db)[k], fs))
  {
    hide EntryChecks, Skipped, AnyFail, Ids;
    FailsInOne(Check(Good, "", "", IdsUnique));
    if n > 0 {
      EntriesFail(db, n - 1, only, fs);
      var last := if Skipped(db, Ids(db)[n - 1], only) then [] else EntryChecks(db, Ids(db)[n - 1], fs);
      FailsInEither(EntriesChecks(db, n - 1, only, fs), last);
    }
  }

  lemma IdsMeaning(db: Db, id: string)
    ensures id in Ids(db) <==> Contains(db, id)
  {
    TallyMeaning(Ids(db), id);
    IdsTally(db, id);
  }

  // A report without a failure means exactly that ids are unique, a requested entry exists,
  // and every entry looked at passes.
  lemma ReportMeaning(db: Db, only: Option<string>, fs: FileSystem)
    ensures !AnyFail(ReportOf(db, only, fs)) <==> Passes(db, only, fs)
  {
    hide EntriesChecks, EntryChecks, EntryPasses, UniquenessChecks, AnyFail, Duplicates;
    var ids, none := UniquenessChecks(db), EmptyChecks(db);
    var entries, missing := EntriesChecks(db, |Ids(db)|, only, fs), MissingChecks(db, only);
    FailsInEither(ids, none);
    FailsInEither(ids + none, entries);
    FailsInEither((ids + none) + entries, missing);
    UniquenessFails(db);
    FailsInOne(Check(Warn, "", "", NoEntries));
    if only.Some? {
      FailsInOne(Check(Fail, only.value, "", NoSuchEntry));
    }
    EntriesFail(db, |Ids(db)|, only, fs);
    forall id: string
      ensures Contains(db, id) <==> exists k :: 0 <= k < |Ids(db)| && Ids(db)[k] == id
      ensures AnyFail(EntryChecks(db, id, fs)) <==> Find(db, id) != Ok(None) && !EntryPasses(db, id, fs)
    {
      IdsMeaning(db, id);
      EntryFails(db, id, fs);
    }
  }

  lemma UniquenessFails(db: Db)
    ensures AnyFail(UniquenessChecks(db)) <==> exists id: string :: Duplicated(db, id)
  {
    hide DuplicateIdChecks, AnyFail, Duplicates, Duplicated;
    var ids := Duplicates(Ids(db));
    FailsInOne(Check(Good, "", "", IdsUnique));
    NamesFail("", ids, |ids|);
    forall id: string ensures id in ids <==> Duplicated(db, id) {
      DuplicateIdsMeaning(db, id);
    }
    assert ids != [] ==> ids[0] in ids;
  }

  lemma Joined(a: seq<Check>, b: seq<Check>, c: seq<Check>)
    ensures (a + b) + c == a + (b + c)
  {
  }

  // ---- which judgements the report holds ---------------------------------------------------------

  // About a command that is the first of its name.
  lemma PinCheckExactly(id: string, commands: seq<Command>, k: nat, fs: FileSystem)
    requires k < |commands| && forall i | 0 <= i < k :: commands[i].name != commands[k].name
    ensures var c := commands[k];
            PinCheck(id, commands, c.name, fs)
            == [if !Hashable(c.exe, fs) then Check(Fail, id, c.name, ExeBroken)
                else if c.sha256.None? then Check(Warn, id, c.name, Unpinned)
                else if fs.canonical[c.exe] in fs.mutable_ then Check(Fail, id, c.name, Unenforceable)
                else if EqIgnoreCase(DigestAt(c.exe, fs), c.sha256.value) then Check(Good, id, c.name, PinCurrent)
                else Check(Warn, id, c.name, PinStale)]
  {
    FindCommandFirst(commands, k);
    ComputeExactly(commands[k].exe, fs);
  }

  // The two judges of a pin agree, where it is not the executable bit that is missing: what is
  // called current runs as pinned, what is called unpinned runs as such, and nothing else runs.
  // A file that has changed is never called current.
  lemma PinJudgesAgree(id: string, commands: seq<Command>, k: nat, fs: FileSystem)
    requires k < |commands| && forall i | 0 <= i < k :: commands[i].name != commands[k].name
    requires Hashable(commands[k].exe, fs) ==> fs.canonical[commands[k].exe] in fs.executable
    ensures var checks, r := PinCheck(id, commands, commands[k].name, fs), VerifyExe(commands[k], fs);
            && |checks| == 1
            && (checks[0].finding == PinCurrent <==> r.Ok? && !r.value.unpinned)
            && (checks[0].finding == Unpinned <==> r.Ok? && r.value.unpinned)
            && (checks[0].finding == PinStale ==> r == Err(ExeHashMismatch))
            && (r == Err(ExeHashMismatch) ==> checks[0].finding == PinStale || checks[0].finding == Unenforceable)
  {
    hide EqIgnoreCase, PinCheck, VerifyExe;
    PinCheckExactly(id, commands, k, fs);
    VerifyExactly(commands[k], fs);
  }

  lemma {:induction false} HeldByPinChecks(id: string, commands: seq<Command>, n: nat, fs: FileSystem, c: Check)
    requires n <= |commands|
    ensures c in PinChecks(id, commands, n, fs) <==>
              exists k :: 0 <= k < n && c in PinCheck(id, commands, commands[k].name, fs)
  {
    hide PinCheck;
    if n > 0 {
      HeldByPinChecks(id, commands, n - 1, fs, c);
    }
  }

  lemma {:induction false} HeldByNames(id: string, names: seq<string>, n: nat, c: Check)
    requires n <= |names|
    ensures c in DuplicateNameChecks(id, names, n) <==>
              exists k :: 0 <= k < n && c == Check(Fail, id, names[k], DuplicateName)
    ensures c in DuplicateIdChecks(names, n) <==> exists k :: 0 <= k < n && c == Check(Fail, names[k], "", DuplicateId)
  {
    if n > 0 {
      HeldByNames(id, names, n - 1, c);
    }
  }

  lemma {:induction false} HeldByEntries(db: Db, n: nat, only: Option<string>, fs: FileSystem, c: Check)
    requires n <= |Ids(db)|
    ensures c in EntriesChecks(db, n, only, fs) <==>
              exists k :: 0 <= k < n && !Skipped(db, Ids(db)[k], only) && c in EntryChecks(db, Ids(db)[k], fs)
  {
    hide EntryChecks, Skipped, Ids;
    if n > 0 {
      HeldByEntries(db, n - 1, only, fs, c);
    }
  }

  lemma PinSays(id: string, commands: seq<Command>, name: string, fs: FileSystem, c: Check)
    requires c in PinCheck(id, commands, name, fs)
    ensures c.id == id && c.finding in {PinCurrent, PinStale, Unpinned, Unenforceable, ExeBroken}
  {
  }

  // What is said of an entry concerns it alone.
  lemma {:induction false} SaidOfIt(db: Db, id: string, fs: FileSystem, c: Check)
    requires c in EntryChecks(db, id, fs)
    ensures c.id == id && c.finding !in {IdsUnique, DuplicateId, NoEntries, NoSuchEntry}
  {
    hide Duplicates, Find, PinCheck, DuplicateNameChecks, PinChecks;
    match Find(db, id) {
      case Err(_) =>
      case Ok(None) =>
      case Ok(Some(view)) =>
        var commands := view.policy.commands;
        var names := Duplicates(Names(commands));
        HeldByNames(id, names, |names|, c);
        HeldByPinChecks(id, commands, |commands|, fs, c);
        forall k | 0 <= k < |commands| && c in PinCheck(id, commands, commands[k].name, fs)
          ensures c.id == id && c.finding in {PinCurrent, PinStale, Unpinned, Unenforceable, ExeBroken}
        {
          PinSays(id, commands, commands[k].name, fs, c);
        }
    }
  }

  // The report says of an entry what there is to say of it, if it is the only one of its id and
  // no other one was asked for; and beyond that one thing or another about the vault.
  lemma ReportHolds(db: Db, only: Option<string>, fs: FileSystem, c: Check)
    ensures c in ReportOf(db, only, fs) <==>
              || (c == Check(Good, "", "", IdsUnique)
                  && forall i, j | 0 <= i < j < |db| :: db[i].id.Some? ==> db[i].id != db[j].id)
              || (c == Check(Fail, c.id, "", DuplicateId)
                  && exists i, j :: 0 <= i < j < |db| && db[i].id == Some(c.id) == db[j].id)
              || (c == Check(Warn, "", "", NoEntries) && forall e | e in db :: e.id.None?)
              || (c == Check(Fail, c.id, "", NoSuchEntry) && only == Some(c.id)
                  && forall e | e in db :: e.id != Some(c.id))
              || (|Matches(db, c.id)| == 1 && (only.None? || only.value == c.id) && c in EntryChecks(db, c.id, fs))
  {
    hide EntriesChecks, EntryChecks, Duplicates, Ids, Matches;
    assert c in ReportOf(db, only, fs) <==>
      c in UniquenessChecks(db) || c in EmptyChecks(db) || c in EntriesChecks(db, |Ids(db)|, only, fs)
      || c in MissingChecks(db, only);
    HeldByUniqueness(db, c);
    HeldByEmpty(db, c);
    MatchesMeaning(db, c.id);
    if only.Some? {
      MatchesMeaning(db, only.value);
    }
    HeldByEntriesOf(db, only, fs, c);
  }

  lemma HeldByEntriesOf(db: Db, only: Option<string>, fs: FileSystem, c: Check)
    ensures c in EntriesChecks(db, |Ids(db)|, only, fs) <==>
              |Matches(db, c.id)| == 1 && (only.None? || only.value == c.id) && c in EntryChecks(db, c.id, fs)
  {
    hide EntriesChecks, EntryChecks, Ids, Matches;
    HeldByEntries(db, |Ids(db)|, only, fs, c);
    IdsMeaning(db, c.id);
    forall k | 0 <= k < |Ids(db)| && c in EntryChecks(db, Ids(db)[k], fs) ensures c.id == Ids(db)[k] {
      SaidOfIt(db, Ids(db)[k], fs, c);
    }
  }

  lemma HeldByUniqueness(db: Db, c: Check)
    ensures c in UniquenessChecks(db) <==>
              || (c == Check(Good, "", "", IdsUnique)
                  && forall i, j | 0 <= i < j < |db| :: db[i].id.Some? ==> db[i].id != db[j].id)
              || (c == Check(Fail, c.id, "", DuplicateId)
                  && exists i, j :: 0 <= i < j < |db| && db[i].id == Some(c.id) == db[j].id)
  {
    hide Duplicates, Ids, Matches;
    var ids := Duplicates(Ids(db));
    HeldByNames("", ids, |ids|, c);
    forall id: string ensures id in ids <==> Duplicated(db, id) {
      DuplicateIdsMeaning(db, id);
    }
    DuplicatedMeaning(db);
    MatchesMeaning(db, c.id);
    assert ids == [] <==> UniqueIds(db) by {
      assert ids != [] ==> ids[0] in ids;
    }
    assert c.id in ids <==> exists k :: 0 <= k < |ids| && ids[k] == c.id;
  }

  lemma HeldByEmpty(db: Db, c: Check)
    ensures c in EmptyChecks(db) <==> c == Check(Warn, "", "", NoEntries) && forall e | e in db :: e.id.None?
  {
    hide Ids, Matches;
    var ids := Ids(db);
    if ids != [] {
      IdsMeaning(db, ids[0]);
      MatchesMeaning(db, ids[0]);
      assert ids[0] in ids;
      var e :| e in Matches(db, ids[0]);
    }
    forall e | e in db && e.id.Some? ensures ids != [] {
      IdsMeaning(db, e.id.value);
      MatchesMeaning(db, e.id.value);
    }
  }

  // Of an entry it says that the policy can be read, or not; that there is no secret; which names
  // are used twice; and one thing of each command that is the first of its name.
  lemma EntryChecksExactly(db: Db, id: string, fs: FileSystem, c: Check)
    requires |Matches(db, id)| == 1
    ensures var e := Matches(db, id)[0];
            c in EntryChecks(db, id, fs) <==>
              if !Readable(e) then c == Check(Fail, id, "", PolicyBroken)
              else
                var commands := e.policy.value.policy.commands;
                || c == Check(Good, id, "", PolicyParses)
                || (c == Check(Warn, id, "", NoSecret) && (e.secret.None? || |e.secret.value| == 0))
                || (c == Check(Fail, id, c.name, DuplicateName)
                    && exists i, j :: 0 <= i < j < |commands| && commands[i].name == commands[j].name == c.name)
                || (exists k :: 0 <= k < |commands| && c in PinCheck(id, commands, commands[k].name, fs))
  {
    hide Duplicates, PinCheck, Matches;
    FindExactly(db, id);
    var e := Matches(db, id)[0];
    if Readable(e) {
      var commands := e.policy.value.policy.commands;
      var names := Duplicates(Names(commands));
      HeldByNames(id, names, |names|, c);
      HeldByPinChecks(id, commands, |commands|, fs, c);
      DuplicateNamesMeaning(commands);
      assert c in DuplicateNameChecks(id, names, |names|) <==>
        c == Check(Fail, id, c.name, DuplicateName) && c.name in names;
      assert c in EntryChecks(db, id, fs) <==>
        || c in SecretChecks(id, e.secret.Some? && |e.secret.value| > 0)
        || c in DuplicateNameChecks(id, names, |names|) || c in PinChecks(id, commands, |commands|, fs);
    } else {
      assert EntryChecks(db, id, fs) == [Check(Fail, id, "", PolicyBroken)];
    }
  }

  // ---- the report as the program builds it ---------------------------------------------------

  class Report {
    var checks: seq<Check>

    constructor ()
      ensures checks == []
    {
      checks := [];
    }

    method Push(level: Level, id: string, name: string, finding: Finding)
      modifies this
      ensures checks == old(checks) + [Check(level, id, name, finding)]
    {
      checks := checks + [Check(level, id, name, finding)];
    }

    method CheckCommandPin(id: string, commands: seq<Command>, name: string, fs: FileSystem)
      modifies this
      ensures checks == old(checks) + PinCheck(id, commands, name, fs)
    {
      var cmd := FindCommand(commands, name);
      if cmd.None? {
        return;
      }
      var found := Compute(cmd.value.exe, fs);
      match found {
        case Err(_) => Push(Fail, id, name, ExeBroken);
        case Ok(found) =>
          match cmd.value.sha256 {
            case None => Push(Warn, id, name, Unpinned);
            case Some(recorded) =>
              if RequireEnforceable(found.canonical, fs).Err? {
                Push(Fail, id, name, Unenforceable);
              } else if EqIgnoreCase(recorded, found.sha256) {
                Push(Good, id, name, PinCurrent);
              } else {
                Push(Warn, id, name, PinStale);
              }
          }
      }
    }

    method CheckOneEntry(vault: Vault, id: string, fs: FileSystem)
      modifies this
      ensures checks == old(checks) + EntryChecks(vault.db, id, fs)
    {
      hide PinCheck, Duplicates, Find;
      var view := vault.FindEntry(id);
      match view {
        case Err(_) =>
          Push(Fail, id, "", PolicyBroken);
        case Ok(None) =>
        case Ok(Some(view)) =>
          Push(Good, id, "", PolicyParses);
          if !view.hasSecret {
            Push(Warn, id, "", NoSecret);
          }
          var commands := view.policy.commands;
          ghost var start := checks;
          assert start == old(checks) + SecretChecks(id, view.hasSecret);
          var dups := DuplicateCommandNames(commands);
          for i := 0 to |dups|
            invariant checks == start + DuplicateNameChecks(id, dups, i)
          {
            Joined(start, DuplicateNameChecks(id, dups, i), [Check(Fail, id, dups[i], DuplicateName)]);
            Push(Fail, id, dups[i], DuplicateName);
          }
          ghost var named := checks;
          for i := 0 to |commands|
            invariant checks == named + PinChecks(id, commands, i, fs)
          {
            Joined(named, PinChecks(id, commands, i, fs), PinCheck(id, commands, commands[i].name, fs));
            CheckCommandPin(id, commands, commands[i].name, fs);
          }
          Joined(start, DuplicateNameChecks(id, dups, |dups|), PinChecks(id, commands, |commands|, fs));
          Joined(old(checks), SecretChecks(id, view.hasSecret), CommandChecks(id, commands, fs));
      }
    }

    // The first part of `check_vault`: whether ids are unique.
    method CheckIds(dups: seq<string>, db: Db)
      requires dups == Duplicates(Ids(db))
      modifies this
      ensures checks == old(checks) + UniquenessChecks(db)
    {
      hide Duplicates;
      if dups == [] {
        Push(Good, "", "", IdsUnique);
      } else {
        for i := 0 to |dups|
          invariant checks == old(checks) + DuplicateIdChecks(dups, i)
        {
          Joined(old(checks), DuplicateIdChecks(dups, i), [Check(Fail, dups[i], "", DuplicateId)]);
          Push(Fail, dups[i], "", DuplicateId);
        }
      }
    }

    // The second: its entries, but for those with a duplicated id or another one than `only`.
    method CheckEntries(vault: Vault, raws: seq<RawEntry>, dups: seq<string>, only: Option<string>, fs: FileSystem)
      requires raws == Raws(vault.db) && forall id :: id in dups <==> Duplicated(vault.db, id)
      modifies this
      ensures checks == old(checks) + EntriesChecks(vault.db, |Ids(vault.db)|, only, fs)
    {
      hide EntryChecks, Duplicated;
      RawsHaveIds(vault.db);
      for i := 0 to |raws|
        invariant checks == old(checks) + EntriesChecks(vault.db, i, only, fs)
      {
        ghost var before := EntriesChecks(vault.db, i, only, fs);
        var id := raws[i].id;
        if (only.Some? && id != only.value) || id in dups {
          Joined(old(checks), before, []);
        } else {
          Joined(old(checks), before, EntryChecks(vault.db, id, fs));
          CheckOneEntry(vault, id, fs);
        }
      }
    }
  }

  method CheckVault(vault: Vault, only: Option<string>, fs: FileSystem) returns (report: Report)
    ensures report.checks == ReportOf(vault.db, only, fs)
    ensures !AnyFail(report.checks) <==> Passes(vault.db, only, fs)
  {
    hide EntriesChecks, UniquenessChecks, Duplicates, Passes, AnyFail, Contains, Duplicated;
    report := new Report();
    var dups := vault.DuplicateIds();
    report.CheckIds(dups, vault.db);
    var raws := vault.RawEntries();
    RawsHaveIds(vault.db);
    if raws == [] {
      report.Push(Warn, "", "", NoEntries);
    }
    report.CheckEntries(vault, raws, dups, only, fs);
    if only.Some? {
      var there := vault.ContainsId(only.value);
      if !there {
        report.Push(Fail, only.value, "", NoSuchEntry);
      }
    }
    ReportMeaning(vault.db, only, fs);
  }

  // After a repin without a target, `check` calls every pin of the entry current, whatever
  // command a repeated name leads it to.
  lemma RepinThenCheck(db: Db, id: string, fs: FileSystem)
    requires Handle(Repin(id, None), db, fs).Ok?
    ensures var after := RequireEntry(Handle(Repin(id, None), db, fs).value, id);
            && after.Ok?
            && forall c | c in after.value.policy.commands ::
                 PinCheck(id, after.value.policy.commands, c.name, fs) == [Check(Good, id, c.name, PinCurrent)]
  {
    RepinLeavesCurrentPins(db, id, None, fs);
    var commands := RequireEntry(Handle(Repin(id, None), db, fs).value, id).value.policy.commands;
    forall c | c in commands
      ensures PinCheck(id, commands, c.name, fs) == [Check(Good, id, c.name, PinCurrent)]
    {
      FindCommandMeaning(commands, c.name);
      var first := FindCommand(commands, c.name).value;
      assert first in commands && Current(first, fs);
    }
  }

  // No command anywhere has an executable that cannot be pinned or run as recorded.
  predicate AllRunnable(db: Db, fs: FileSystem) {
    forall e | e in db && e.id.Some? && e.policy.Some? && e.policy.value.Document? ::
      forall c | c in e.policy.value.policy.commands :: Runnable(c, fs)
  }

  lemma EntryOf(db: Db, id: string)
    requires !Duplicated(db, id) && Contains(db, id)
    ensures var e := Matches(db, id)[0];
            e in db && e.id == Some(id) && Matches(db, id) == [e] && forall o | o in db && o.id == Some(id) :: o == e
  {
    MatchesMeaning(db, id);
    OnlyMatch(db, id);
    assert db[Position(db, id)] in db;
  }

  lemma DuplicatedMeaning(db: Db)
    ensures UniqueIds(db) <==> forall id: string :: !Duplicated(db, id)
  {
    forall id: string
      ensures Duplicated(db, id) <==> exists i, j :: 0 <= i < j < |db| && db[i].id == Some(id) == db[j].id
    {
      MatchesMeaning(db, id);
    }
    if i, j :| 0 <= i < j < |db| && db[i].id.Some? && db[i].id == db[j].id {
      assert db[i].id == Some(db[i].id.value) == db[j].id;
    }
  }

  // An entry passes, but for its identity and for holding at least one command.
  predicate SoundEntry(e: Entry, fs: FileSystem) {
    e.id.Some? ==>
      && e.policy.Some? && Parse(e.policy.value).Some?
      && UniqueNames(e.policy.value.policy.commands)
      && forall c | c in e.policy.value.policy.commands :: Runnable(c, fs)
  }

  // Exactly what `check` accepts.
  lemma PassesExactly(db: Db, fs: FileSystem)
    ensures Passes(db, None, fs) <==> UniqueIds(db) && forall e | e in db :: SoundEntry(e, fs)
  {
    DuplicatedMeaning(db);
    if UniqueIds(db) {
      forall id: string | Contains(db, id)
        ensures EntryPasses(db, id, fs) <==> SoundEntry(Matches(db, id)[0], fs)
        ensures Matches(db, id)[0] in db
      {
        EntryOf(db, id);
      }
      forall e | e in db && e.id.Some? ensures Contains(db, e.id.value) && Matches(db, e.id.value)[0] == e {
        MatchesMeaning(db, e.id.value);
        EntryOf(db, e.id.value);
      }
    }
  }

  // So it accepts an entry without commands, which no handler leaves.
  lemma PassesWithoutCommands(fs: FileSystem)
    ensures var e := Entry(1, Some("empty"), None, Some(Document(NewPolicy("", "TOKEN"))), Some([1]), true);
            Passes([e], None, fs) && !Shape([e])
  {
    var e := Entry(1, Some("empty"), None, Some(Document(NewPolicy("", "TOKEN"))), Some([1]), true);
    PassesExactly([e], fs);
    assert e in [e] && !GoodEntry(e);
  }

  // A vault of the shape the handlers keep passes when every executable is as it should be.
  lemma ShapePasses(db: Db, fs: FileSystem)
    requires Shape(db) && AllRunnable(db, fs)
    ensures Passes(db, None, fs)
  {
    DuplicatedMeaning(db);
    forall id: string | Contains(db, id) ensures EntryPasses(db, id, fs) {
      EntryOf(db, id);
      assert GoodEntry(Matches(db, id)[0]);
    }
  }

  // And a vault that passes has that shape, but for command lists that may be empty.
  lemma PassingIsShape(db: Db, fs: FileSystem)
    requires UniqueUuids(db) && Passes(db, None, fs)
    requires forall e | e in db && e.id.Some? && e.policy.Some? && e.policy.value.Document? ::
               e.policy.value.policy.commands != []
    ensures Shape(db) && AllRunnable(db, fs)
  {
    DuplicatedMeaning(db);
    forall e | e in db && e.id.Some?
      ensures GoodEntry(e) && forall c | c in e.policy.value.policy.commands :: Runnable(c, fs)
    {
      MatchesMeaning(db, e.id.value);
      EntryOf(db, e.id.value);
      assert EntryPasses(db, e.id.value, fs);
    }
  }
}
