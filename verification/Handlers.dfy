// The entry commands: check the request, open the vault, change one entry, save.
module Handlers {
  import opened Bytes
  import opened Results
  import opened Strings
  import opened Policies
  import opened Pins
  import opened Entries
  import opened OpenVault

  const MIN_SECRET_LEN := 8

  // A `--command` flag; `prefix` is its argument prefix split into words, None when its
  // quotes do not balance.
  datatype CommandSpec = CommandSpec(name: string, exe: string, prefix: Option<seq<string>>)

  // One round of the wizard: a command, and the answer to whether there is another; None when
  // reading the answer failed.
  datatype Round = Round(spec: CommandSpec, more: Option<string>)

  // Standard input: no terminal, or one on which the rounds are answered until it ends or
  // cannot be read.
  datatype Input = NoTerminal | Terminal(rounds: seq<Round>, broken: bool)

  datatype Request =
    | Add(id: string, description: string, inject: string, title: Option<string>, secret: Text,
          specs: seq<CommandSpec>, input: Input, noPin: bool, force: bool, uuid: nat)
    | AddCommand(id: string, specs: seq<CommandSpec>, input: Input, noPin: bool)
    | RmCommand(id: string, name: string)
    | NewSecret(id: string, secret: Text)
    | Edit(id: string, newDescription: Option<string>, newInject: Option<string>)
    | Rm(id: string)
    | Repin(id: string, target: Option<string>)

  // ---- what each request does to the saved entries ------------------------------------

  function BuildCommand(spec: CommandSpec, noPin: bool, fs: FileSystem): Result<Command> {
    if Blank(spec.name) || Blank(spec.exe) || spec.prefix.None? then Err(MalformedPolicy)
    else if noPin then Ok(Command(spec.name, spec.exe, None, spec.prefix.value))
    else match Compute(spec.exe, fs)
      case Err(e) => Err(e)
      case Ok(found) =>
        if RequireEnforceable(found.canonical, fs).Err? then Err(MalformedPolicy)
        else Ok(Command(spec.name, spec.exe, Some(found.sha256), spec.prefix.value))
  }

  function BuildAll(specs: seq<CommandSpec>, noPin: bool, fs: FileSystem): (r: Result<seq<Command>>)
    ensures r.Ok? ==> |r.value| == |specs|
  {
    if specs == [] then Ok([])
    else match BuildCommand(specs[0], noPin, fs)
      case Err(e) => Err(e)
      case Ok(c) =>
        match BuildAll(specs[1..], noPin, fs)
        case Err(e) => Err(e)
        case Ok(rest) => Ok([c] + rest)
  }

  lemma {:induction false} BuildAllSplit(a: seq<CommandSpec>, b: seq<CommandSpec>, noPin: bool, fs: FileSystem)
    ensures var ra, rb := BuildAll(a, noPin, fs), BuildAll(b, noPin, fs);
            BuildAll(a + b, noPin, fs)
            == if ra.Err? then ra else if rb.Err? then rb else Ok(ra.value + rb.value)
  {
    hide BuildCommand;
    if a == [] {
      assert a + b == b;
      var rb := BuildAll(b, noPin, fs);
      assert rb.Ok? ==> [] + rb.value == rb.value;
    } else {
      assert (a + b)[0] == a[0] && (a + b)[1..] == a[1..] + b;
      BuildAllSplit(a[1..], b, noPin, fs);
      var c, ra, rb := BuildCommand(a[0], noPin, fs), BuildAll(a[1..], noPin, fs), BuildAll(b, noPin, fs);
      if c.Ok? && ra.Ok? && rb.Ok? {
        assert [c.value] + (ra.value + rb.value) == ([c.value] + ra.value) + rb.value;
      }
    }
  }

  predicate IsYes(answer: string) {
    Trim(answer) == "y" || Trim(answer) == "Y" || Trim(answer) == "yes"
  }

  // The commands asked for, one at a time. At the end of the input every line reads as empty,
  // and a command without a name is refused.
  function Interview(rounds: seq<Round>, broken: bool, noPin: bool, fs: FileSystem): (r: Result<seq<Command>>)
    ensures r.Ok? ==> 1 <= |r.value| <= |rounds|
  {
    if rounds == [] then Err(if broken then Internal else MalformedPolicy)
    else match BuildCommand(rounds[0].spec, noPin, fs)
      case Err(e) => Err(e)
      case Ok(c) =>
        if rounds[0].more.None? then Err(Internal)
        else if !IsYes(rounds[0].more.value) then Ok([c])
        else match Interview(rounds[1..], broken, noPin, fs)
          case Err(e) => Err(e)
          case Ok(rest) => Ok([c] + rest)
  }

  // What one round makes of the commands built so far.
  lemma InterviewStep(done: seq<Command>, rounds: seq<Round>, n: nat, broken: bool, noPin: bool, fs: FileSystem)
    requires n < |rounds|
    ensures var c, more := BuildCommand(rounds[n].spec, noPin, fs), rounds[n].more;
            Prefixed(done, Interview(rounds[n..], broken, noPin, fs))
            == if c.Err? then Err(c.status)
               else if more.None? then Err(Internal)
               else if !IsYes(more.value) then Ok(done + [c.value])
               else Prefixed(done + [c.value], Interview(rounds[n + 1..], broken, noPin, fs))
  {
    hide BuildCommand, IsYes;
    assert rounds[n..][0] == rounds[n] && rounds[n..][1..] == rounds[n + 1..];
    var c, rest := BuildCommand(rounds[n].spec, noPin, fs), Interview(rounds[n + 1..], broken, noPin, fs);
    if c.Ok? && rest.Ok? {
      assert done + ([c.value] + rest.value) == (done + [c.value]) + rest.value;
    }
  }

  lemma InterviewBegins(rounds: seq<Round>, broken: bool, noPin: bool, fs: FileSystem)
    ensures rounds[0..] == rounds
    ensures Interview(rounds, broken, noPin, fs) == Prefixed([], Interview(rounds, broken, noPin, fs))
  {
    var all := Interview(rounds, broken, noPin, fs);
    assert all.Ok? ==> [] + all.value == all.value;
  }

  lemma InterviewEnds(done: seq<Command>, rounds: seq<Round>, broken: bool, noPin: bool, fs: FileSystem)
    requires rounds == []
    ensures Prefixed(done, Interview(rounds, broken, noPin, fs)) == Err(if broken then Internal else MalformedPolicy)
  {
  }

  // One command more, or the error that all of the list then has.
  lemma BuildAllStep(specs: seq<CommandSpec>, n: nat, done: seq<Command>, noPin: bool, fs: FileSystem)
    requires n < |specs| && BuildAll(specs[..n], noPin, fs) == Ok(done)
    ensures var c := BuildCommand(specs[n], noPin, fs);
            if c.Err? then BuildAll(specs, noPin, fs) == Err(c.status)
            else BuildAll(specs[..n + 1], noPin, fs) == Ok(done + [c.value])
  {
    hide BuildCommand;
    var c, one := BuildCommand(specs[n], noPin, fs), [specs[n]];
    assert one[1..] == [] && BuildAll([], noPin, fs) == Ok([]);
    assert c.Ok? ==> [c.value] + [] == [c.value];
    assert BuildAll(one, noPin, fs) == if c.Err? then Err(c.status) else Ok([c.value]);
    assert specs[..n + 1] == specs[..n] + one;
    BuildAllSplit(specs[..n], one, noPin, fs);
    assert specs == specs[..n + 1] + specs[n + 1..];
    BuildAllSplit(specs[..n + 1], specs[n + 1..], noPin, fs);
  }

  function Collect(specs: seq<CommandSpec>, input: Input, noPin: bool, fs: FileSystem): (r: Result<seq<Command>>)
    ensures r.Ok? ==> r.value != []
  {
    if specs != [] then BuildAll(specs, noPin, fs)
    else match input
      case NoTerminal => Err(ConfigError)
      case Terminal(rounds, broken) => Interview(rounds, broken, noPin, fs)
  }

  function RequireEntry(db: Db, id: string): Result<View> {
    match Find(db, id)
    case Err(e) => Err(e)
    case Ok(None) => Err(UnknownEntry)
    case Ok(Some(view)) => Ok(view)
  }

  function Without(commands: seq<Command>, name: string): seq<Command> {
    if commands == [] then []
    else if commands[0].name == name then Without(commands[1..], name)
    else [commands[0]] + Without(commands[1..], name)
  }

  // What the request asks of its arguments alone: the policy or commands it brings.
  function Prepared(req: Request, fs: FileSystem): Result<seq<Command>> {
    match req
    case Add(_, _, _, _, _, _, _, _, _, _) =>
      if Blank(req.id) || Blank(req.inject) || |req.secret| < MIN_SECRET_LEN then Err(MalformedPolicy)
      else (match Collect(req.specs, req.input, req.noPin, fs)
            case Err(e) => Err(e)
            case Ok(commands) => if UniqueNames(commands) then Ok(commands) else Err(MalformedPolicy))
    case AddCommand(_, _, _, _) => Collect(req.specs, req.input, req.noPin, fs)
    case NewSecret(_, _) => if |req.secret| < MIN_SECRET_LEN then Err(MalformedPolicy) else Ok([])
    case _ => Ok([])
  }

  // The entries the request leaves, given those of the opened vault.
  function Apply(req: Request, commands: seq<Command>, db: Db, fs: FileSystem): Result<Db> {
    match req
    case Add(id, description, inject, title, secret, _, _, _, force, uuid) =>
      if Contains(db, id) && !force then Err(ConfigError)
      else
        var kept := if Contains(db, id) then Delete(db, id) else Ok(db);
        (match kept
         case Err(e) => Err(e)
         case Ok(rest) =>
           Ok(rest + [Entry(uuid, Some(id), Some(if title.Some? then title.value else id),
                            Some(Document(NewPolicy(description, inject).(commands := commands))),
                            Some(secret), true)]))
    case _ =>
      match RequireEntry(db, req.id)
      case Err(e) => Err(e)
      case Ok(view) => Change(req, commands, view.policy, db, fs)
  }

  function Change(req: Request, commands: seq<Command>, policy: Policy, db: Db, fs: FileSystem): Result<Db>
    requires !req.Add?
  {
    match req
    case AddCommand(id, _, _, _) =>
      var all := policy.commands + commands;
      if UniqueNames(all) then SetPolicy(db, id, policy.(commands := all)) else Err(MalformedPolicy)
    case RmCommand(id, name) =>
      var rest := Without(policy.commands, name);
      if |rest| == |policy.commands| then Err(UnknownCommand)
      else if rest == [] then Err(MalformedPolicy)
      else SetPolicy(db, id, policy.(commands := rest))
    case NewSecret(id, secret) => SetSecret(db, id, secret)
    case Edit(id, description, inject) =>
      if inject.Some? && Blank(inject.value) then Err(MalformedPolicy)
      else SetPolicy(db, id, policy.(
        description := if description.Some? then description.value else policy.description,
        inject := if inject.Some? then inject.value else policy.inject))
    case Rm(id) => Delete(db, id)
    case Repin(id, target) =>
      if target.Some? && FindCommand(policy.commands, target.value).None? then Err(UnknownCommand)
      else match RepinAll(policy.commands, target, fs)
        case Err(e) => Err(e)
        case Ok(pinned) =>
          if target.None? && pinned == policy.commands then Ok(db)
          else SetPolicy(db, id, policy.(commands := pinned))
  }

  function Handle(req: Request, db: Db, fs: FileSystem): Result<Db> {
    match Prepared(req, fs)
    case Err(e) => Err(e)
    case Ok(commands) => Apply(req, commands, db, fs)
  }

  // ---- the shape every run keeps -----------------------------------------------------------

  predicate UniqueIds(db: Db) {
    forall i, j | 0 <= i < j < |db| :: db[i].id.Some? ==> db[i].id != db[j].id
  }

  predicate GoodEntry(e: Entry) {
    e.id.Some? ==> e.policy.Some? && e.policy.value.Document? && WellFormed(e.policy.value.policy)
  }

  // Identities are unique, and every entry that is ours has a policy with one or more
  // uniquely named commands.
  predicate Shape(db: Db) {
    UniqueUuids(db) && UniqueIds(db) && forall e | e in db :: GoodEntry(e)
  }

  predicate FreshUuid(req: Request, db: Db) {
    req.Add? ==> forall e | e in db :: e.uuid != req.uuid
  }

  lemma LocateMeaning(db: Db, id: string)
    ensures Locate(db, id).Ok? ==>
              var k := Locate(db, id).value;
              k < |db| && db[k].id == Some(id) && forall i | 0 <= i < |db| :: db[i].id == Some(id) ==> i == k
  {
    if Locate(db, id).Ok? {
      OnlyMatch(db, id);
    }
  }

  // Replacing the located entry by a good one with the same identities.
  lemma SetKeepsShape(db: Db, k: nat, e: Entry)
    requires Shape(db) && k < |db| && GoodEntry(e) && e.uuid == db[k].uuid && e.id == db[k].id
    ensures Shape(db[k := e])
  {
  }

  lemma DeleteKeepsShape(db: Db, k: nat)
    requires Shape(db) && k < |db|
    ensures Shape(db[..k] + db[k + 1..])
    ensures forall e | e in db[..k] + db[k + 1..] :: e in db
    ensures forall e | e in db[..k] + db[k + 1..] :: e.id.Some? ==> e.id != db[k].id
  {
  }

  lemma AppendKeepsShape(db: Db, e: Entry)
    requires Shape(db) && GoodEntry(e)
    requires forall old_ | old_ in db :: old_.uuid != e.uuid && (old_.id.Some? ==> old_.id != e.id)
    ensures Shape(db + [e])
  {
    forall i | 0 <= i < |db| ensures db[i].uuid != e.uuid && (db[i].id.Some? ==> db[i].id != e.id) {
      assert db[i] in db;
    }
  }

  lemma {:induction false} WithoutMeaning(commands: seq<Command>, name: string)
    ensures forall c :: c in Without(commands, name) <==> c in commands && c.name != name
    ensures UniqueNames(commands) ==> UniqueNames(Without(commands, name))
  {
    if commands != [] {
      var tail := commands[1..];
      WithoutMeaning(tail, name);
      assert forall c :: c in commands <==> c == commands[0] || c in tail;
      if UniqueNames(commands) && commands[0].name != name {
        var rest := Without(tail, name);
        forall j | 0 <= j < |rest| ensures rest[j].name != commands[0].name {
          assert rest[j] in tail;
          var i :| 0 <= i < |tail| && tail[i] == rest[j];
          assert commands[i + 1] == tail[i];
        }
      }
    }
  }

  lemma FoundPolicy(db: Db, id: string)
    requires Shape(db) && RequireEntry(db, id).Ok?
    ensures WellFormed(RequireEntry(db, id).value.policy)
    ensures Locate(db, id).Ok? ==>
              db[Locate(db, id).value].policy == Some(Document(RequireEntry(db, id).value.policy))
  {
    MatchesMeaning(db, id);
    OnlyMatch(db, id);
    var e := Matches(db, id)[0];
    assert e in db && GoodEntry(e);
  }

  lemma SetPolicyKeepsShape(db: Db, id: string, policy: Policy)
    requires Shape(db) && WellFormed(policy) && SetPolicy(db, id, policy).Ok?
    ensures Shape(SetPolicy(db, id, policy).value)
  {
    LocateMeaning(db, id);
    var k := Locate(db, id).value;
    SetKeepsShape(db, k, db[k].(policy := Some(Document(policy))));
  }

  lemma AddKeepsShape(db: Db, req: Request, commands: seq<Command>, fs: FileSystem)
    requires Shape(db) && FreshUuid(req, db) && req.Add?
    requires commands != [] && UniqueNames(commands) && Apply(req, commands, db, fs).Ok?
    ensures Shape(Apply(req, commands, db, fs).value)
  {
    var rest := if Contains(db, req.id) then Delete(db, req.id).value else db;
    if Contains(db, req.id) {
      LocateMeaning(db, req.id);
      DeleteKeepsShape(db, Locate(db, req.id).value);
    } else {
      MatchesMeaning(db, req.id);
    }
    AppendKeepsShape(rest, Apply(req, commands, db, fs).value[|rest|]);
  }

  lemma ChangeKeepsShape(db: Db, req: Request, commands: seq<Command>, fs: FileSystem)
    requires Shape(db) && !req.Add? && Apply(req, commands, db, fs).Ok?
    ensures Shape(Apply(req, commands, db, fs).value)
  {
    var policy := RequireEntry(db, req.id).value.policy;
    FoundPolicy(db, req.id);
    LocateMeaning(db, req.id);
    match req {
      case AddCommand(id, _, _, _) =>
        SetPolicyKeepsShape(db, id, policy.(commands := policy.commands + commands));
      case RmCommand(id, name) =>
        WithoutMeaning(policy.commands, name);
        SetPolicyKeepsShape(db, id, policy.(commands := Without(policy.commands, name)));
      case NewSecret(id, secret) =>
        var k := Locate(db, id).value;
        assert db[k] in db;
        SetKeepsShape(db, k, db[k].(secret := Some(secret)));
      case Edit(id, description, inject) =>
        SetPolicyKeepsShape(db, id, policy.(
          description := if description.Some? then description.value else policy.description,
          inject := if inject.Some? then inject.value else policy.inject));
      case Rm(id) =>
        DeleteKeepsShape(db, Locate(db, id).value);
      case Repin(id, target) =>
        RepinMeaning(policy.commands, target, fs);
        var pinned := RepinAll(policy.commands, target, fs).value;
        if !(target.None? && pinned == policy.commands) {
          SetPolicyKeepsShape(db, id, policy.(commands := pinned));
        }
    }
  }

  lemma HandleKeepsShape(db: Db, req: Request, fs: FileSystem)
    requires Shape(db) && FreshUuid(req, db) && Handle(req, db, fs).Ok?
    ensures Shape(Handle(req, db, fs).value)
  {
    var commands := Prepared(req, fs).value;
    if req.Add? {
      AddKeepsShape(db, req, commands, fs);
    } else {
      ChangeKeepsShape(db, req, commands, fs);
    }
  }

  // Identities stay distinct in any vault, well shaped or not.
  lemma HandleKeepsUuids(db: Db, req: Request, fs: FileSystem)
    requires UniqueUuids(db) && FreshUuid(req, db) && Handle(req, db, fs).Ok?
    ensures UniqueUuids(Handle(req, db, fs).value)
  {
    hide RequireEntry, RepinAll, Collect, Without, UniqueNames, FindCommand, Blank;
    var after := Handle(req, db, fs).value;
    if req.Add? {
      var rest := after[..|after| - 1];
      var kept := if Contains(db, req.id) then Delete(db, req.id).value else db;
      assert rest == kept;
      DeletedUuids(db, req.id);
      forall i | 0 <= i < |kept| ensures kept[i].uuid != req.uuid {
        assert kept[i] in kept;
      }
    } else {
      DeletedUuids(db, req.id);
    }
  }

  lemma DeletedUuids(db: Db, id: string)
    requires UniqueUuids(db)
    ensures Delete(db, id).Ok? ==>
              UniqueUuids(Delete(db, id).value) && forall e | e in Delete(db, id).value :: e in db
  {
  }

  // ---- whole runs -------------------------------------------------------------------------

  // A request, the file system it sees, and whether lock, open and save all work.
  datatype Turn = Turn(req: Request, fs: FileSystem, storesWork: bool)

  function After(db: Db, t: Turn): Db {
    if t.storesWork && Handle(t.req, db, t.fs).Ok? then Handle(t.req, db, t.fs).value else db
  }

  function Run(db: Db, turns: seq<Turn>): Db
    decreases |turns|
  {
    if turns == [] then db else Run(After(db, turns[0]), turns[1..])
  }

  // Each new entry gets an identity that is not in use.
  predicate FreshAlong(db: Db, turns: seq<Turn>)
    decreases |turns|
  {
    turns != [] ==> FreshUuid(turns[0].req, db) && FreshAlong(After(db, turns[0]), turns[1..])
  }

  lemma {:induction false} RunKeepsShape(db: Db, turns: seq<Turn>)
    requires Shape(db) && FreshAlong(db, turns)
    ensures Shape(Run(db, turns))
    decreases |turns|
  {
    if turns != [] {
      var t := turns[0];
      if t.storesWork && Handle(t.req, db, t.fs).Ok? {
        HandleKeepsShape(db, t.req, t.fs);
      }
      RunKeepsShape(After(db, t), turns[1..]);
    }
  }

  // ---- only the named entry changes -----------------------------------------------------------

  // The entries of every other id, and those that are not ours, in order.
  function Others(db: Db, id: string): seq<Entry> {
    if db == [] then []
    else if db[0].id == Some(id) then Others(db[1..], id)
    else [db[0]] + Others(db[1..], id)
  }

  lemma {:induction false} OthersAppend(a: Db, b: Db, id: string)
    ensures Others(a + b, id) == Others(a, id) + Others(b, id)
  {
    if a == [] {
      assert a + b == b;
    } else {
      assert (a + b)[1..] == a[1..] + b;
      OthersAppend(a[1..], b, id);
    }
  }

  lemma OthersAround(db: Db, k: nat, id: string, middle: Db)
    requires k < |db| && db[k].id == Some(id) && Others(middle, id) == []
    ensures Others(db[..k] + middle + db[k + 1..], id) == Others(db, id)
  {
    assert db == db[..k] + [db[k]] + db[k + 1..];
    OthersAppend(db[..k] + [db[k]], db[k + 1..], id);
    OthersAppend(db[..k], [db[k]], id);
    OthersAppend(db[..k] + middle, db[k + 1..], id);
    OthersAppend(db[..k], middle, id);
  }

  lemma LocatedOthers(db: Db, id: string, e: Entry)
    requires Locate(db, id).Ok? && e.id == Some(id)
    ensures Others(db[Locate(db, id).value := e], id) == Others(db, id)
    ensures Others(Delete(db, id).value, id) == Others(db, id)
  {
    var k := Locate(db, id).value;
    OthersAround(db, k, id, [e]);
    OthersAround(db, k, id, []);
    assert db[k := e] == db[..k] + [e] + db[k + 1..];
    assert db[..k] + [] + db[k + 1..] == db[..k] + db[k + 1..];
  }

  // From any vault, well shaped or not, a request changes no entry but the one it names.
  lemma OnlyNamedChanges(db: Db, req: Request, fs: FileSystem)
    requires Handle(req, db, fs).Ok?
    ensures Others(Handle(req, db, fs).value, req.id) == Others(db, req.id)
  {
    var after := Handle(req, db, fs).value;
    if req.Add? {
      var rest := if Contains(db, req.id) then Delete(db, req.id).value else db;
      if Contains(db, req.id) {
        LocatedOthers(db, req.id, after[|rest|]);
      }
      OthersAppend(rest, [after[|rest|]], req.id);
    } else if after != db {
      var k := Locate(db, req.id).value;
      if req.Rm? {
        LocatedOthers(db, req.id, db[k]);
      } else {
        LocatedOthers(db, req.id, after[k]);
        assert after == db[k := after[k]];
      }
    }
  }

  // ---- what the named entry becomes ------------------------------------------------------------

  lemma UpdatedMatch(db: Db, id: string, e: Entry)
    requires Locate(db, id).Ok? && e.id == Some(id)
    ensures Matches(db, id) == [db[Locate(db, id).value]]
    ensures Matches(db[Locate(db, id).value := e], id) == [e]
    ensures Matches(Delete(db, id).value, id) == []
  {
    var k := Locate(db, id).value;
    OnlyMatch(db, id);
    MatchesMeaning(db[k := e], id);
    assert db[k := e][k].id == Some(id);
    OnlyMatch(db[k := e], id);
    var rest := Delete(db, id).value;
    forall i | 0 <= i < |rest| ensures rest[i].id != Some(id) {
      assert rest[i] == db[if i < k then i else i + 1];
    }
    MatchesMeaning(rest, id);
  }

  // What lookups find before and after a request that succeeded.
  predicate Effect(req: Request, before: Db, after: Db, fs: FileSystem) {
    var found, secret := Find(after, req.id), Secret(after, req.id);
    if req.Add? then
      var commands := Collect(req.specs, req.input, req.noPin, fs);
      && commands.Ok? && secret == Ok(req.secret)
      && found == Ok(Some(View(
           req.id, Some(if req.title.Some? then req.title.value else req.id),
           NewPolicy(req.description, req.inject).(commands := commands.value), true)))
    else
      var known := RequireEntry(before, req.id);
      known.Ok? &&
      var view, p := known.value, known.value.policy;
      match req
      case AddCommand(_, specs, input, noPin) =>
        && Collect(specs, input, noPin, fs).Ok? && secret == Secret(before, req.id)
        && found == Ok(Some(view.(policy := p.(commands := p.commands + Collect(specs, input, noPin, fs).value))))
      case RmCommand(_, name) =>
        && (exists c :: c in p.commands && c.name == name) && secret == Secret(before, req.id)
        && found == Ok(Some(view.(policy := p.(commands := Without(p.commands, name)))))
      case NewSecret(_, chosen) =>
        secret == Ok(chosen) && found == Ok(Some(view.(hasSecret := true)))
      case Edit(_, description, inject) =>
        && secret == Secret(before, req.id)
        && found == Ok(Some(view.(policy := p.(
             description := if description.Some? then description.value else p.description,
             inject := if inject.Some? then inject.value else p.inject))))
      case Rm(_) => found == Ok(None)
      case Repin(_, target) =>
        && RepinAll(p.commands, target, fs).Ok? && secret == Secret(before, req.id)
        && found == Ok(Some(view.(policy := p.(commands := RepinAll(p.commands, target, fs).value))))
  }

  lemma PolicyReadsBack(db: Db, id: string, policy: Policy)
    requires SetPolicy(db, id, policy).Ok? && policy.schema == POLICY_SCHEMA && RequireEntry(db, id).Ok?
    ensures Find(SetPolicy(db, id, policy).value, id) == Ok(Some(RequireEntry(db, id).value.(policy := policy)))
    ensures Secret(SetPolicy(db, id, policy).value, id) == Secret(db, id)
  {
    UpdatedMatch(db, id, SetPolicy(db, id, policy).value[Locate(db, id).value]);
  }

  lemma SecretReadsBack(db: Db, id: string, secret: Text)
    requires SetSecret(db, id, secret).Ok? && secret != [] && RequireEntry(db, id).Ok?
    ensures Find(SetSecret(db, id, secret).value, id) == Ok(Some(RequireEntry(db, id).value.(hasSecret := true)))
    ensures Secret(SetSecret(db, id, secret).value, id) == Ok(secret)
  {
    UpdatedMatch(db, id, SetSecret(db, id, secret).value[Locate(db, id).value]);
  }

  lemma KnownSchema(db: Db, id: string)
    requires RequireEntry(db, id).Ok?
    ensures RequireEntry(db, id).value.policy.schema == POLICY_SCHEMA
  {
  }

  // A lookup after a successful request finds what the request asked for.
  lemma ReadsBack(db: Db, req: Request, fs: FileSystem)
    requires Handle(req, db, fs).Ok?
    ensures Effect(req, db, Handle(req, db, fs).value, fs)
  {
    if req.Add? {
      AddReadsBack(db, req, fs);
    } else {
      ChangeReadsBack(db, req, Prepared(req, fs).value, fs);
    }
  }

  lemma ChangeReadsBack(db: Db, req: Request, commands: seq<Command>, fs: FileSystem)
    requires !req.Add? && Prepared(req, fs) == Ok(commands) && Apply(req, commands, db, fs).Ok?
    ensures Effect(req, db, Apply(req, commands, db, fs).value, fs)
  {
    hide Find, Secret, RequireEntry, SetPolicy, SetSecret, Delete, RepinAll, UniqueNames, Blank, Collect;
    var id, p := req.id, RequireEntry(db, req.id).value.policy;
    KnownSchema(db, id);
    match req {
      case AddCommand(_, _, _, _) =>
        PolicyReadsBack(db, id, p.(commands := p.commands + commands));
      case RmCommand(_, name) =>
        WithoutSame(p.commands, name);
        PolicyReadsBack(db, id, p.(commands := Without(p.commands, name)));
      case NewSecret(_, secret) =>
        SecretReadsBack(db, id, secret);
      case Edit(_, description, inject) =>
        PolicyReadsBack(db, id, p.(
          description := if description.Some? then description.value else p.description,
          inject := if inject.Some? then inject.value else p.inject));
      case Rm(_) =>
        RmReadsBack(db, id);
      case Repin(_, target) =>
        var pinned := RepinAll(p.commands, target, fs).value;
        if target.None? && pinned == p.commands {
          UnchangedReadsBack(db, id);
        } else {
          PolicyReadsBack(db, id, p.(commands := pinned));
        }
    }
  }

  lemma RmReadsBack(db: Db, id: string)
    requires Delete(db, id).Ok?
    ensures Find(Delete(db, id).value, id) == Ok(None)
  {
    UpdatedMatch(db, id, db[Locate(db, id).value]);
  }

  lemma UnchangedReadsBack(db: Db, id: string)
    requires RequireEntry(db, id).Ok?
    ensures Find(db, id) == Ok(Some(RequireEntry(db, id).value))
  {
  }

  lemma AddReadsBack(db: Db, req: Request, fs: FileSystem)
    requires req.Add? && Handle(req, db, fs).Ok?
    ensures Matches(Handle(req, db, fs).value, req.id) == [Handle(req, db, fs).value[|Handle(req, db, fs).value| - 1]]
  {
    var after := Handle(req, db, fs).value;
    var rest := after[..|after| - 1];
    if Contains(db, req.id) {
      UpdatedMatch(db, req.id, db[Locate(db, req.id).value]);
    }
    MatchesAppend(rest, after[|after| - 1], req.id);
    assert rest + [after[|after| - 1]] == after;
  }

  lemma {:induction false} WithoutSame(commands: seq<Command>, name: string)
    ensures |Without(commands, name)| <= |commands|
    ensures |Without(commands, name)| == |commands| <==> forall c | c in commands :: c.name != name
  {
    if commands != [] {
      WithoutSame(commands[1..], name);
      assert forall c :: c in commands <==> c == commands[0] || c in commands[1..];
    }
  }

  // ---- repin, and the two judges of a pin --------------------------------------------------------

  // After a repin without a target every command of the entry has a current pin, and the run
  // path accepts exactly the executable files among them; with a target only commands of that
  // name differ, and those are current.
  lemma RepinLeavesCurrentPins(db: Db, id: string, target: Option<string>, fs: FileSystem)
    requires Handle(Repin(id, target), db, fs).Ok?
    ensures var old_, new_ := RequireEntry(db, id), RequireEntry(Handle(Repin(id, target), db, fs).value, id);
            && old_.Ok? && new_.Ok?
            && var before, after := old_.value.policy.commands, new_.value.policy.commands;
            && |after| == |before|
            && (forall i | 0 <= i < |after| ::
                 if target.None? || before[i].name == target.value then
                   && Current(after[i], fs) && after[i] == before[i].(sha256 := after[i].sha256)
                   && (VerifyExe(after[i], fs).Ok? <==> fs.canonical[after[i].exe] in fs.executable)
                 else after[i] == before[i])
  {
    ReadsBack(db, Repin(id, target), fs);
    RepinMeaning(RequireEntry(db, id).value.policy.commands, target, fs);
  }

  // ---- resolving a command to run --------------------------------------------------------------------

  function Resolve(db: Db, id: string, name: string): Result<(Policy, Command)> {
    match RequireEntry(db, id)
    case Err(e) => Err(e)
    case Ok(view) =>
      match FindCommand(view.policy.commands, name)
      case None => Err(UnknownCommand)
      case Some(c) => Ok((view.policy, c))
  }

  // It is denied unless exactly one entry has the id, its policy is sound and a command has
  // the name; the error says which of these failed first.
  lemma ResolveMeaning(db: Db, id: string, name: string)
    ensures match Resolve(db, id, name)
            case Ok((policy, c)) =>
              && |Matches(db, id)| == 1 && Matches(db, id)[0].policy == Some(Document(policy))
              && policy.schema == POLICY_SCHEMA && c in policy.commands && c.name == name
            case Err(e) =>
              var found := Matches(db, id);
              if |found| == 0 then e == UnknownEntry
              else if |found| > 1 || found[0].policy.None? || Parse(found[0].policy.value).None?
              then e == MalformedPolicy
              else e == UnknownCommand && forall c | c in found[0].policy.value.policy.commands :: c.name != name
  {
    var view := RequireEntry(db, id);
    if view.Ok? {
      FindCommandMeaning(view.value.policy.commands, name);
    }
  }

  // Every command of an entry can be run exactly when commands of equal name are equal.
  lemma ResolveReachesExactly(db: Db, id: string)
    requires RequireEntry(db, id).Ok?
    ensures var policy := RequireEntry(db, id).value.policy;
            (forall i | 0 <= i < |policy.commands| ::
               Resolve(db, id, policy.commands[i].name) == Ok((policy, policy.commands[i])))
            <==> (forall i, j | 0 <= i < |policy.commands| && 0 <= j < |policy.commands| ::
                    policy.commands[i].name == policy.commands[j].name ==> policy.commands[i] == policy.commands[j])
  {
    var commands := RequireEntry(db, id).value.policy.commands;
    FoundExactly(commands);
    forall i | 0 <= i < |commands| ensures FindCommand(commands, commands[i].name).Some? {
      FindCommandMeaning(commands, commands[i].name);
    }
  }

  // Resolving a command of a well-shaped vault never has two candidates.
  lemma ResolveIsUnambiguous(db: Db, id: string, i: nat)
    requires Shape(db) && RequireEntry(db, id).Ok? && i < |RequireEntry(db, id).value.policy.commands|
    ensures var policy := RequireEntry(db, id).value.policy;
            Resolve(db, id, policy.commands[i].name) == Ok((policy, policy.commands[i]))
  {
    FoundPolicy(db, id);
    FindCommandUnique(RequireEntry(db, id).value.policy.commands, i);
  }

  // ---- exactly when a request is accepted, and how it is refused ---------------------------------

  lemma EntryExactly(db: Db, id: string)
    ensures var found := Matches(db, id);
            RequireEntry(db, id)
            == if found == [] then Err(UnknownEntry)
               else if |found| > 1 || !Readable(found[0]) then Err(MalformedPolicy)
               else Ok(View(id, found[0].title, found[0].policy.value.policy,
                            found[0].secret.Some? && |found[0].secret.value| > 0))
  {
    FindExactly(db, id);
  }

  lemma {:induction false} OthersOfNone(db: Db, id: string)
    requires Matches(db, id) == []
    ensures Others(db, id) == db
  {
    if db != [] {
      OthersOfNone(db[1..], id);
    }
  }

  lemma DeleteLeavesOthers(db: Db, id: string)
    requires |Matches(db, id)| == 1
    ensures Others(db, id) == db[..Position(db, id)] + db[Position(db, id) + 1..]
  {
    OnlyMatch(db, id);
    var k := Position(db, id);
    var rest := db[..k] + db[k + 1..];
    forall i | 0 <= i < |rest| ensures rest[i].id != Some(id) {
      assert rest[i] == db[if i < k then i else i + 1];
    }
    MatchesMeaning(rest, id);
    OthersOfNone(rest, id);
    OthersAround(db, k, id, []);
    assert db[..k] + [] + db[k + 1..] == rest;
  }

  // A new entry goes beside the others when none has its id, or in place of the one that has
  // when that is forced and the one may be changed.
  lemma AddExactly(db: Db, req: Request, fs: FileSystem)
    requires req.Add?
    ensures var r, found := Handle(req, db, fs), Matches(db, req.id);
            var commands := Collect(req.specs, req.input, req.noPin, fs);
            if Blank(req.id) || Blank(req.inject) || |req.secret| < 8 then r == Err(MalformedPolicy)
            else if commands.Err? then r == Err(commands.status)
            else if exists i, j :: 0 <= i < j < |commands.value| && commands.value[i].name == commands.value[j].name
            then r == Err(MalformedPolicy)
            else if found != [] && !req.force then r == Err(ConfigError)
            else if |found| > 1 then r == Err(MalformedPolicy)
            else if |found| == 1 && !found[0].inRoot then r == Err(UnknownEntry)
            else r == Ok(Others(db, req.id)
                         + [Entry(req.uuid, Some(req.id), if req.title.Some? then req.title else Some(req.id),
                                  Some(Document(Policy("kpexec.policy.v1", req.description, req.inject,
                                                       commands.value, 200_000, 50_000, ""))),
                                  Some(req.secret), true)])
  {
    LocateExactly(db, req.id);
    if Matches(db, req.id) == [] {
      OthersOfNone(db, req.id);
    } else if |Matches(db, req.id)| == 1 {
      DeleteLeavesOthers(db, req.id);
    }
  }

  // With new commands an entry keeps its old ones before them, if no name is then used twice.
  lemma AddCommandExactly(db: Db, req: Request, fs: FileSystem)
    requires req.AddCommand?
    ensures var r, found := Handle(req, db, fs), Matches(db, req.id);
            var commands := Collect(req.specs, req.input, req.noPin, fs);
            if commands.Err? then r == Err(commands.status)
            else if found == [] then r == Err(UnknownEntry)
            else if |found| > 1 || !Readable(found[0]) then r == Err(MalformedPolicy)
            else
              var p := found[0].policy.value.policy;
              var all := p.commands + commands.value;
              if exists i, j :: 0 <= i < j < |all| && all[i].name == all[j].name then r == Err(MalformedPolicy)
              else if !found[0].inRoot then r == Err(UnknownEntry)
              else r == Ok(Rewritten(db, req.id, p.(commands := all)))
  {
    EntryExactly(db, req.id);
    LocateExactly(db, req.id);
  }

  // The entry of that id with another policy, in its place.
  function Rewritten(db: Db, id: string, policy: Policy): Db
    requires Matches(db, id) != []
  {
    var k := Position(db, id);
    db[k := db[k].(policy := Some(Document(policy)))]
  }

  // A command can be removed if there is one of the name, and one of another name to stay.
  lemma RmCommandExactly(db: Db, req: Request, fs: FileSystem)
    requires req.RmCommand?
    ensures var r, found := Handle(req, db, fs), Matches(db, req.id);
            if found == [] then r == Err(UnknownEntry)
            else if |found| > 1 || !Readable(found[0]) then r == Err(MalformedPolicy)
            else
              var p := found[0].policy.value.policy;
              if forall c | c in p.commands :: c.name != req.name then r == Err(UnknownCommand)
              else if forall c | c in p.commands :: c.name == req.name then r == Err(MalformedPolicy)
              else if !found[0].inRoot then r == Err(UnknownEntry)
              else r == Ok(Rewritten(db, req.id, p.(commands := Without(p.commands, req.name))))
  {
    EntryExactly(db, req.id);
    LocateExactly(db, req.id);
    var found := Matches(db, req.id);
    if |found| == 1 && Readable(found[0]) {
      var commands := found[0].policy.value.policy.commands;
      WithoutSame(commands, req.name);
      WithoutMeaning(commands, req.name);
      var rest := Without(commands, req.name);
      assert rest != [] ==> rest[0] in rest;
    }
  }

  // The commands that stay do so in order.
  lemma {:induction false} WithoutSplit(front: seq<Command>, c: Command, back: seq<Command>, name: string)
    ensures Without(front + [c] + back, name)
            == Without(front, name) + (if c.name == name then [] else [c]) + Without(back, name)
  {
    if front == [] {
      assert ([c] + back)[1..] == back && front + [c] + back == [c] + back;
    } else {
      assert (front + [c] + back)[1..] == front[1..] + [c] + back;
      WithoutSplit(front[1..], c, back, name);
    }
  }

  lemma NewSecretExactly(db: Db, req: Request, fs: FileSystem)
    requires req.NewSecret?
    ensures var r, found := Handle(req, db, fs), Matches(db, req.id);
            if |req.secret| < 8 then r == Err(MalformedPolicy)
            else if found == [] then r == Err(UnknownEntry)
            else if |found| > 1 || !Readable(found[0]) then r == Err(MalformedPolicy)
            else if !found[0].inRoot then r == Err(UnknownEntry)
            else var k := Position(db, req.id); r == Ok(db[k := db[k].(secret := Some(req.secret))])
  {
    EntryExactly(db, req.id);
    LocateExactly(db, req.id);
  }

  lemma EditExactly(db: Db, req: Request, fs: FileSystem)
    requires req.Edit?
    ensures var r, found := Handle(req, db, fs), Matches(db, req.id);
            if found == [] then r == Err(UnknownEntry)
            else if |found| > 1 || !Readable(found[0]) then r == Err(MalformedPolicy)
            else if req.newInject.Some? && Blank(req.newInject.value) then r == Err(MalformedPolicy)
            else if !found[0].inRoot then r == Err(UnknownEntry)
            else
              var p := found[0].policy.value.policy;
              var described := if req.newDescription.None? then p else p.(description := req.newDescription.value);
              r == Ok(Rewritten(db, req.id,
                                if req.newInject.None? then described else described.(inject := req.newInject.value)))
  {
    EntryExactly(db, req.id);
    LocateExactly(db, req.id);
  }

  lemma RmExactly(db: Db, req: Request, fs: FileSystem)
    requires req.Rm?
    ensures var r, found := Handle(req, db, fs), Matches(db, req.id);
            if found == [] then r == Err(UnknownEntry)
            else if |found| > 1 || !Readable(found[0]) then r == Err(MalformedPolicy)
            else if !found[0].inRoot then r == Err(UnknownEntry)
            else r == Ok(Others(db, req.id))
  {
    EntryExactly(db, req.id);
    LocateExactly(db, req.id);
    if |Matches(db, req.id)| == 1 {
      DeleteLeavesOthers(db, req.id);
    }
  }

  // The commands with the digest of what is at its path in each one of the target's name, or in
  // each one without a target.
  function Repinned(commands: seq<Command>, target: Option<string>, fs: FileSystem): seq<Command>
    requires forall c | c in commands && (target.None? || c.name == target.value) :: Hashable(c.exe, fs)
  {
    seq(|commands|, i requires 0 <= i < |commands| =>
      if target.None? || commands[i].name == target.value
      then commands[i].(sha256 := Some(DigestAt(commands[i].exe, fs))) else commands[i])
  }

  // Where nothing is to be repinned, an entry that may not be changed is no obstacle.
  lemma RepinExactly(db: Db, req: Request, fs: FileSystem)
    requires req.Repin?
    ensures var r, found := Handle(req, db, fs), Matches(db, req.id);
            if found == [] then r == Err(UnknownEntry)
            else if |found| > 1 || !Readable(found[0]) then r == Err(MalformedPolicy)
            else
              var p := found[0].policy.value.policy;
              if req.target.Some? && forall c | c in p.commands :: c.name != req.target.value
              then r == Err(UnknownCommand)
              else if exists c :: c in p.commands && (req.target.None? || c.name == req.target.value)
                                  && !Pinnable(c.exe, fs)
              then r == Err(MalformedPolicy)
              else if req.target.None? && Repinned(p.commands, None, fs) == p.commands then r == Ok(db)
              else if !found[0].inRoot then r == Err(UnknownEntry)
              else r == Ok(Rewritten(db, req.id, p.(commands := Repinned(p.commands, req.target, fs))))
  {
    EntryExactly(db, req.id);
    LocateExactly(db, req.id);
    var found := Matches(db, req.id);
    if |found| == 1 && Readable(found[0]) {
      var commands := found[0].policy.value.policy.commands;
      RepinMeaning(commands, req.target, fs);
      if req.target.Some? {
        FindCommandMeaning(commands, req.target.value);
      }
      if RepinAll(commands, req.target, fs).Ok? {
        assert RepinAll(commands, req.target, fs).value == Repinned(commands, req.target, fs);
      }
    }
  }

  // ---- what a command or an answer must be -------------------------------------------------------

  lemma BuildCommandExactly(spec: CommandSpec, noPin: bool, fs: FileSystem)
    ensures BuildCommand(spec, noPin, fs)
            == if Blank(spec.name) || Blank(spec.exe) || spec.prefix.None? then Err(MalformedPolicy)
               else if noPin then Ok(Command(spec.name, spec.exe, None, spec.prefix.value))
               else if !Pinnable(spec.exe, fs) then Err(MalformedPolicy)
               else Ok(Command(spec.name, spec.exe, Some(DigestAt(spec.exe, fs)), spec.prefix.value))
  {
  }

  // The flags give the commands one by one, or the error of the first that fails.
  lemma {:induction false} BuildAllExactly(specs: seq<CommandSpec>, noPin: bool, fs: FileSystem)
    ensures var r := BuildAll(specs, noPin, fs);
            match r
            case Ok(commands) =>
              && |commands| == |specs|
              && forall i | 0 <= i < |specs| :: BuildCommand(specs[i], noPin, fs) == Ok(commands[i])
            case Err(e) =>
              exists n :: 0 <= n < |specs| && BuildCommand(specs[n], noPin, fs) == Err(e)
                          && forall i | 0 <= i < n :: BuildCommand(specs[i], noPin, fs).Ok?
  {
    hide BuildCommand;
    if specs != [] && BuildCommand(specs[0], noPin, fs).Ok? {
      var tail := specs[1..];
      BuildAllExactly(tail, noPin, fs);
      var rest := BuildAll(tail, noPin, fs);
      if rest.Err? {
        var n :| 0 <= n < |tail| && BuildCommand(tail[n], noPin, fs) == Err(rest.status)
                 && forall i | 0 <= i < n :: BuildCommand(tail[i], noPin, fs).Ok?;
        assert BuildCommand(specs[n + 1], noPin, fs) == Err(rest.status);
        forall i | 0 <= i < n + 1 ensures BuildCommand(specs[i], noPin, fs).Ok? {
          assert i > 0 ==> specs[i] == tail[i - 1];
        }
      }
    }
  }

  // The round gives a command, and another one is asked for.
  predicate GoesOn(round: Round, noPin: bool, fs: FileSystem) {
    BuildCommand(round.spec, noPin, fs).Ok? && round.more.Some? && IsYes(round.more.value)
  }

  // The wizard ends well in the first round that is not followed by another one; or with what
  // goes wrong in the first round that does, or with the end of the input.
  lemma {:induction false} InterviewExactly(rounds: seq<Round>, broken: bool, noPin: bool, fs: FileSystem)
    returns (n: nat)
    ensures n <= |rounds| && forall i | 0 <= i < n :: GoesOn(rounds[i], noPin, fs)
    ensures n < |rounds| ==> !GoesOn(rounds[n], noPin, fs)
    ensures var r := Interview(rounds, broken, noPin, fs);
            if n == |rounds| then r == Err(if broken then Internal else MalformedPolicy)
            else
              var last := BuildCommand(rounds[n].spec, noPin, fs);
              if last.Err? then r == Err(last.status)
              else if rounds[n].more.None? then r == Err(Internal)
              else
                && r.Ok? && |r.value| == n + 1
                && forall i | 0 <= i <= n :: BuildCommand(rounds[i].spec, noPin, fs) == Ok(r.value[i])
  {
    hide BuildCommand, IsYes;
    if rounds == [] || !GoesOn(rounds[0], noPin, fs) {
      n := 0;
    } else {
      var tail := rounds[1..];
      var m := InterviewExactly(tail, broken, noPin, fs);
      n := m + 1;
      forall i | 0 <= i < n ensures GoesOn(rounds[i], noPin, fs) {
        assert i > 0 ==> rounds[i] == tail[i - 1];
      }
    }
  }

  // Three answers ask for another round, whatever white space is around them.
  lemma YesExactly(answer: string)
    ensures IsYes(answer) <==>
              exists front, yes, back ::
                answer == front + yes + back && Blank(front) && Blank(back) && yes in ["y", "Y", "yes"]
  {
    if IsYes(answer) {
      var front, back := TrimSplits(answer);
    }
    forall front, yes, back | answer == front + yes + back && Blank(front) && Blank(back) && yes in ["y", "Y", "yes"]
      ensures IsYes(answer)
    {
      TrimMeaning(front, yes, back);
    }
  }

  // ---- the handlers --------------------------------------------------------------------------------

  // The outcome of one request: the specified entries saved, or nothing saved.
  predicate Outcome(req: Request, fs: FileSystem, works: bool, before: Db, after: Db, r: Result<()>) {
    match Handle(req, before, fs)
    case Err(e) => r.Err? && after == before && (works ==> r == Err(e))
    case Ok(wanted) =>
      if works then r.Ok? && after == wanted
      else after == before && (r.Ok? ==> after == wanted)
  }

  // The saved vault. `opens` and `works` stand for the lock and unlock, and the save, working.
  class SavedVault {
    var saved: Db
    // How often it has been saved.
    var saves: nat

    constructor (saved: Db)
      ensures this.saved == saved && saves == 0
    {
      this.saved, saves := saved, 0;
    }

    method Open(works: bool) returns (r: Result<Vault>)
      ensures if works then r.Ok? else r == Err(UnlockFailed)
      ensures r.Ok? ==> fresh(r.value) && r.value.db == saved
    {
      if works {
        var v := new Vault(saved);
        r := Ok(v);
      } else {
        r := Err(UnlockFailed);
      }
    }

    method Save(vault: Vault, works: bool) returns (r: Result<()>)
      modifies this
      ensures if works then r.Ok? && saved == vault.db else r.Err? && saved == old(saved)
      ensures saves == old(saves) + if works then 1 else 0
    {
      if works {
        saved, saves := vault.db, saves + 1;
        r := Ok(());
      } else {
        r := Err(Internal);
      }
    }

    method CollectInteractive(input: Input, noPin: bool, fs: FileSystem) returns (r: Result<seq<Command>>)
      ensures r == Collect([], input, noPin, fs)
    {
      hide BuildCommand, IsYes, Interview, Prefixed;
      if input.NoTerminal? {
        return Err(ConfigError);
      }
      var rounds, broken := input.rounds, input.broken;
      var out: seq<Command> := [];
      var n := 0;
      ghost var all := Interview(rounds, broken, noPin, fs);
      InterviewBegins(rounds, broken, noPin, fs);
      while n < |rounds|
        invariant n <= |rounds| && all == Prefixed(out, Interview(rounds[n..], broken, noPin, fs))
      {
        var round := rounds[n];
        InterviewStep(out, rounds, n, broken, noPin, fs);
        var c := BuildCommand(round.spec, noPin, fs);
        if c.Err? {
          return Err(c.status);
        }
        if round.more.None? {
          return Err(Internal);
        }
        if !IsYes(round.more.value) {
          return Ok(out + [c.value]);
        }
        out := out + [c.value];
        n := n + 1;
      }
      InterviewEnds(out, rounds[n..], broken, noPin, fs);
      // The input has ended or cannot be read.
      r := Err(if broken then Internal else MalformedPolicy);
    }

    method CollectCommands(specs: seq<CommandSpec>, input: Input, noPin: bool, fs: FileSystem)
      returns (r: Result<seq<Command>>)
      ensures r == Collect(specs, input, noPin, fs)
    {
      hide BuildCommand;
      if specs == [] {
        r := CollectInteractive(input, noPin, fs);
        return;
      }
      var out: seq<Command> := [];
      assert specs[..0] == [];
      for i := 0 to |specs|
        invariant BuildAll(specs[..i], noPin, fs) == Ok(out)
      {
        BuildAllStep(specs, i, out, noPin, fs);
        var c := BuildCommand(specs[i], noPin, fs);
        if c.Err? {
          return Err(c.status);
        }
        out := out + [c.value];
      }
      assert specs[..|specs|] == specs;
      r := Ok(out);
    }

    method RequireEntryIn(vault: Vault, id: string) returns (r: Result<View>)
      ensures r == RequireEntry(vault.db, id)
    {
      var found := vault.FindEntry(id);
      match found {
        case Err(e) => r := Err(e);
        case Ok(None) => r := Err(UnknownEntry);
        case Ok(Some(view)) => r := Ok(view);
      }
    }

    method ResolveWith(id: string, name: string, opens: bool) returns (r: Result<(Policy, Command)>)
      ensures r == if opens then Resolve(saved, id, name) else Err(UnlockFailed)
    {
      var vault := Open(opens);
      if vault.Err? {
        return Err(vault.status);
      }
      var view := RequireEntryIn(vault.value, id);
      if view.Err? {
        return Err(view.status);
      }
      var command := FindCommand(view.value.policy.commands, name);
      if command.None? {
        return Err(UnknownCommand);
      }
      r := Ok((view.value.policy, command.value));
    }

    method RejectDuplicateCommandNames(commands: seq<Command>) returns (ok: bool)
      ensures ok <==> UniqueNames(commands)
    {
      var dups := DuplicateCommandNames(commands);
      ok := dups == [];
    }

    method AddWith(req: Request, fs: FileSystem, opens: bool, works: bool) returns (r: Result<()>)
      requires req.Add? && UniqueUuids(saved)
      modifies this
      ensures Outcome(req, fs, opens && works, old(saved), saved, r)
      ensures saves == old(saves) ==> saved == old(saved)
    {
      if Blank(req.id) || Blank(req.inject) || |req.secret| < MIN_SECRET_LEN {
        return Err(MalformedPolicy);
      }
      var policy := NewPolicy(req.description, req.inject);
      var commands := CollectCommands(req.specs, req.input, req.noPin, fs);
      if commands.Err? {
        return Err(commands.status);
      }
      policy := policy.(commands := commands.value);
      var unique := RejectDuplicateCommandNames(policy.commands);
      if !unique {
        return Err(MalformedPolicy);
      }
      var vault := Open(opens);
      if vault.Err? {
        return Err(vault.status);
      }
      var there := vault.value.ContainsId(req.id);
      if there && !req.force {
        return Err(ConfigError);
      }
      if there {
        var removed := vault.value.RemoveEntry(req.id);
        if removed.Err? {
          return Err(removed.status);
        }
      }
      var title := if req.title.Some? then req.title.value else req.id;
      vault.value.InsertEntry(req.uuid, req.id, title, req.secret, policy);
      r := Save(vault.value, works);
    }

    method AddCommandWith(req: Request, fs: FileSystem, opens: bool, works: bool) returns (r: Result<()>)
      requires req.AddCommand? && UniqueUuids(saved)
      modifies this
      ensures Outcome(req, fs, opens && works, old(saved), saved, r)
      ensures saves == old(saves) ==> saved == old(saved)
    {
      var commands := CollectCommands(req.specs, req.input, req.noPin, fs);
      if commands.Err? {
        return Err(commands.status);
      }
      var vault := Open(opens);
      if vault.Err? {
        return Err(vault.status);
      }
      var view := RequireEntryIn(vault.value, req.id);
      if view.Err? {
        return Err(view.status);
      }
      var policy := view.value.policy;
      policy := policy.(commands := policy.commands + commands.value);
      var unique := RejectDuplicateCommandNames(policy.commands);
      if !unique {
        return Err(MalformedPolicy);
      }
      r := vault.value.UpdatePolicy(req.id, policy);
      if r.Ok? {
        r := Save(vault.value, works);
      }
    }

    method RmCommandWith(req: Request, fs: FileSystem, opens: bool, works: bool) returns (r: Result<()>)
      requires req.RmCommand? && UniqueUuids(saved)
      modifies this
      ensures Outcome(req, fs, opens && works, old(saved), saved, r)
      ensures saves == old(saves) ==> saved == old(saved)
    {
      var vault := Open(opens);
      if vault.Err? {
        return Err(vault.status);
      }
      var view := RequireEntryIn(vault.value, req.id);
      if view.Err? {
        return Err(view.status);
      }
      var policy := view.value.policy;
      var before := |policy.commands|;
      policy := policy.(commands := Without(policy.commands, req.name));
      if |policy.commands| == before {
        return Err(UnknownCommand);
      }
      if policy.commands == [] {
        return Err(MalformedPolicy);
      }
      r := vault.value.UpdatePolicy(req.id, policy);
      if r.Ok? {
        r := Save(vault.value, works);
      }
    }

    method SetSecretWith(req: Request, fs: FileSystem, opens: bool, works: bool) returns (r: Result<()>)
      requires req.NewSecret? && UniqueUuids(saved)
      modifies this
      ensures Outcome(req, fs, opens && works, old(saved), saved, r)
      ensures saves == old(saves) ==> saved == old(saved)
    {
      if |req.secret| < MIN_SECRET_LEN {
        return Err(MalformedPolicy);
      }
      var vault := Open(opens);
      if vault.Err? {
        return Err(vault.status);
      }
      var view := RequireEntryIn(vault.value, req.id);
      if view.Err? {
        return Err(view.status);
      }
      r := vault.value.UpdateSecret(req.id, req.secret);
      if r.Ok? {
        r := Save(vault.value, works);
      }
    }

    method EditWith(req: Request, fs: FileSystem, opens: bool, works: bool) returns (r: Result<()>)
      requires req.Edit? && UniqueUuids(saved)
      modifies this
      ensures Outcome(req, fs, opens && works, old(saved), saved, r)
      ensures saves == old(saves) ==> saved == old(saved)
    {
      var vault := Open(opens);
      if vault.Err? {
        return Err(vault.status);
      }
      var view := RequireEntryIn(vault.value, req.id);
      if view.Err? {
        return Err(view.status);
      }
      var policy := view.value.policy;
      if req.newDescription.Some? {
        policy := policy.(description := req.newDescription.value);
      }
      if req.newInject.Some? {
        if Blank(req.newInject.value) {
          return Err(MalformedPolicy);
        }
        policy := policy.(inject := req.newInject.value);
      }
      r := vault.value.UpdatePolicy(req.id, policy);
      if r.Ok? {
        r := Save(vault.value, works);
      }
    }

    method RmWith(req: Request, fs: FileSystem, opens: bool, works: bool) returns (r: Result<()>)
      requires req.Rm? && UniqueUuids(saved)
      modifies this
      ensures Outcome(req, fs, opens && works, old(saved), saved, r)
      ensures saves == old(saves) ==> saved == old(saved)
    {
      var vault := Open(opens);
      if vault.Err? {
        return Err(vault.status);
      }
      var view := RequireEntryIn(vault.value, req.id);
      if view.Err? {
        return Err(view.status);
      }
      r := vault.value.RemoveEntry(req.id);
      if r.Ok? {
        r := Save(vault.value, works);
      }
    }

    method RepinWith(req: Request, fs: FileSystem, opens: bool, works: bool) returns (r: Result<()>)
      requires req.Repin? && UniqueUuids(saved)
      modifies this
      ensures Outcome(req, fs, opens && works, old(saved), saved, r)
      ensures saves == old(saves) ==> saved == old(saved)
    {
      var vault := Open(opens);
      if vault.Err? {
        return Err(vault.status);
      }
      var view := RequireEntryIn(vault.value, req.id);
      if view.Err? {
        return Err(view.status);
      }
      var policy := view.value.policy;
      if req.target.Some? && FindCommand(policy.commands, req.target.value).None? {
        return Err(UnknownCommand);
      }
      var pinned, repinned := RepinCommands(policy.commands, req.target, fs);
      if pinned.Err? {
        return Err(pinned.status);
      }
      if repinned == 0 {
        return Ok(());
      }
      r := vault.value.UpdatePolicy(req.id, policy.(commands := pinned.value));
      if r.Ok? {
        r := Save(vault.value, works);
      }
    }

    method Dispatch(req: Request, fs: FileSystem, opens: bool, works: bool) returns (r: Result<()>)
      requires UniqueUuids(saved)
      modifies this
      ensures Outcome(req, fs, opens && works, old(saved), saved, r)
      ensures saves == old(saves) ==> saved == old(saved)
    {
      match req {
        case Add(_, _, _, _, _, _, _, _, _, _) => r := AddWith(req, fs, opens, works);
        case AddCommand(_, _, _, _) => r := AddCommandWith(req, fs, opens, works);
        case RmCommand(_, _) => r := RmCommandWith(req, fs, opens, works);
        case NewSecret(_, _) => r := SetSecretWith(req, fs, opens, works);
        case Edit(_, _, _) => r := EditWith(req, fs, opens, works);
        case Rm(_) => r := RmWith(req, fs, opens, works);
        case Repin(_, _) => r := RepinWith(req, fs, opens, works);
      }
    }
  }
}
