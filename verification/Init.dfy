// Creating or adopting a vault: three stores written in turn, put back when a later one fails.
module Init {
  import opened Results
  import opened Stores
  import opened VaultSave

  datatype Args = Args(useExisting: bool, force: bool)

  datatype FileSnapshot = Missing | Present(contents: Contents)

  datatype Outcome =
    | Initialized(master: string)
    | Refused            // would overwrite something, could not look, or could not adopt
    | CreateFailed       // writing the new vault failed; nothing is put back here
    | ItemFailed         // the Keychain write failed, and the rollback ran
    | ConfigFailed       // the config write failed, and the rollback ran

  function Contained(snapshot: FileSnapshot): Option<Contents> {
    match snapshot
    case Missing => None
    case Present(c) => Some(c)
  }

  method Capture(s: Host, p: Path) returns (r: Option<FileSnapshot>)
    modifies s`clock, s`failures
    ensures s.failures == old(s.failures) + OneUnless(r.Some?)
    ensures r.Some? ==> s.File(p) == Contained(r.value)
  {
    var contents := s.Read(p);
    match contents {
      case Done(c) => r := Some(Present(c));
      case NotFound => r := Some(Missing);
      case IoError => r := None;
    }
  }

  // Written in place, so a failure can leave anything behind.
  method Restore(s: Host, snapshot: FileSnapshot, p: Path) returns (ok: bool)
    modifies s`files, s`clock, s`failures, s`seen
    ensures s.failures == old(s.failures) + OneUnless(ok)
    ensures ok ==> s.File(p) == Contained(snapshot)
    ensures forall q | q != p :: s.File(q) == old(s.File(q))
    ensures p == Config ==> s.seen <= old(s.seen) + {old(s.Now())}
  {
    match snapshot {
      case Present(c) =>
        ok := s.Write(p, c);
      case Missing =>
        var r := s.Remove(p);
        ok := !r.IoError?;
    }
  }

  function Kept(snapshot: Option<FileSnapshot>, now: Option<Contents>): Option<Contents> {
    if snapshot.Some? then Contained(snapshot.value) else now
  }

  // How many of the four stores are not as they were.
  function Unrestored(v: View, item: Option<Credential>, config: Option<Contents>, vault: Option<Contents>,
                      backup: Option<Contents>): nat {
    OneUnless(v.item == item) + OneUnless(v.config == config) + OneUnless(v.vault == vault)
    + OneUnless(v.backup == backup)
  }

  // Best effort: every store is tried, and a failing or lying call costs at most one of them.
  method RollbackInit(s: Host, item: Option<Credential>, config: Option<FileSnapshot>,
                      vault: Option<FileSnapshot>, backup: Option<FileSnapshot>)
    modifies s`files, s`item, s`clock, s`failures, s`seen, s`honest
    ensures Unrestored(s.Look(), item, Kept(config, old(s.File(Config))), Kept(vault, old(s.File(Vault))),
                       Kept(backup, old(s.File(Backup))))
            <= s.failures - old(s.failures)
    ensures vault.None? && backup.None? ==>
              && s.File(Vault) == old(s.File(Vault)) && s.File(Backup) == old(s.File(Backup))
              && forall m | m in s.seen && m !in old(s.seen) ::
                   m.vault == old(s.File(Vault)) && m.backup == old(s.File(Backup))
  {
    if config.Some? {
      var _ := Restore(s, config.value, Config);
    }
    var _ := s.SetItem(item);
    if vault.Some? {
      var _ := Restore(s, vault.value, Vault);
    }
    if backup.Some? {
      var _ := Restore(s, backup.value, Backup);
    }
  }

  // Something that would be overwritten without leave.
  predicate Clobbers(s: Host, args: Args)
    reads s
  {
    !args.force && (s.item.Some? || s.File(Config).Some? || (!args.useExisting && s.File(Vault).Some?))
  }

  // Refuses to overwrite a vault, a config or a Keychain item, unless forced.
  method GuardClobber(s: Host, args: Args) returns (r: IoResult<Option<Credential>>)
    modifies s`clock, s`failures
    ensures s.failures >= old(s.failures)
    ensures s.failures == old(s.failures) ==> (r.Done? <==> !Clobbers(s, args))
    ensures r.Done? ==> s.item == r.value
    ensures r.Done? && !args.force ==> s.item == None
  {
    if !args.force && !args.useExisting {
      var there := s.Exists(Vault);
      if there {
        return IoError;
      }
    }
    if !args.force {
      var there := s.Exists(Config);
      if there {
        return IoError;
      }
    }
    var existing := s.GetItem();
    match existing {
      case Done(c) => r := if args.force then Done(Some(c)) else IoError;
      case NotFound => r := Done(None);
      case IoError => r := IoError;
    }
  }

  // An adopted vault must open with the password typed for it.
  method AdoptExisting(s: Host, password: string) returns (ok: bool)
    modifies s`clock, s`failures
    ensures s.failures >= old(s.failures)
    ensures s.failures == old(s.failures) ==> (ok <==> Opens(s.File(Vault), password))
    ensures ok ==> Opens(s.File(Vault), password)
  {
    ok := s.Exists(Vault);
    if ok {
      var contents := s.Read(Vault);
      ok := contents.Done? && Opens(Some(contents.value), password);
    }
  }

  // What init may replace: an adopted vault and its backup are not among it.
  datatype Snapshots = Snapshots(vault: Option<FileSnapshot>, backup: Option<FileSnapshot>, config: FileSnapshot)

  method TakeSnapshots(s: Host, args: Args) returns (r: Option<Snapshots>)
    modifies s`clock, s`failures
    ensures s.failures == old(s.failures) + OneUnless(r.Some?)
    ensures r.Some? ==>
              && r.value.vault.Some? == r.value.backup.Some? == !args.useExisting
              && (r.value.vault.Some? ==> s.File(Vault) == Contained(r.value.vault.value))
              && (r.value.backup.Some? ==> s.File(Backup) == Contained(r.value.backup.value))
              && s.File(Config) == Contained(r.value.config)
  {
    r := None;
    var vault, backup: Option<FileSnapshot> := None, None;
    if !args.useExisting {
      vault := Capture(s, Vault);
      if vault.None? {
        return;
      }
      backup := Capture(s, Backup);
      if backup.None? {
        return;
      }
    }
    var config := Capture(s, Config);
    if config.Some? {
      r := Some(Snapshots(vault, backup, config.value));
    }
  }

  // The vault that init is about: the one to adopt, or a new one.
  method Provide(s: Host, args: Args, password: string, seal: nat) returns (ok: bool)
    modifies s`files, s`clock, s`failures, s`seen
    ensures s.failures >= old(s.failures)
    ensures s.failures == old(s.failures) ==> (ok <==> !args.useExisting || Opens(s.File(Vault), password))
    ensures ok ==> Opens(s.File(Vault), password)
    ensures s.File(Config) == old(s.File(Config))
    ensures args.useExisting ==>
              s.File(Vault) == old(s.File(Vault)) && s.File(Backup) == old(s.File(Backup)) && s.seen == old(s.seen)
    ensures !args.useExisting && ok ==> s.File(Vault) == Some(Sealed(password, "", seal))
    ensures !args.useExisting && !ok ==> s.File(Vault) == old(s.File(Vault)) && s.failures > old(s.failures)
  {
    if args.useExisting {
      ok := AdoptExisting(s, password);
    } else {
      var created, _ := SaveAtomic(s, password, "", seal);
      ok := created;
    }
  }

  // The vault is there: store the Keychain item, then the config, undoing all on failure.
  method Link(s: Host, previous: Option<Credential>, snapshots: Snapshots, credential: Credential, config: Contents)
    returns (outcome: Outcome)
    requires s.item == previous && s.File(Config) == Contained(snapshots.config)
    requires snapshots.vault.Some? == snapshots.backup.Some?
    modifies s`files, s`item, s`clock, s`failures, s`seen, s`honest
    ensures s.failures >= old(s.failures)
    ensures s.failures == old(s.failures) ==> outcome.Initialized? && s.honest
    ensures outcome == Initialized(credential.password) || outcome.ItemFailed? || outcome.ConfigFailed?
    ensures outcome.Initialized? ==>
              && s.File(Vault) == old(s.File(Vault)) && s.File(Config) == Some(config)
              && (s.honest ==> s.item == Some(credential))
    ensures !outcome.Initialized? ==>
              Unrestored(s.Look(), previous, Contained(snapshots.config), Kept(snapshots.vault, old(s.File(Vault))),
                         Kept(snapshots.backup, old(s.File(Backup))))
              < s.failures - old(s.failures)
    ensures snapshots.vault.None? ==>
              && s.File(Vault) == old(s.File(Vault)) && s.File(Backup) == old(s.File(Backup))
              && forall m | m in s.seen && m !in old(s.seen) ::
                   m.vault == old(s.File(Vault)) && m.backup == old(s.File(Backup))
  {
    var stored := s.SetItem(Some(credential));
    if !stored {
      RollbackInit(s, previous, None, snapshots.vault, snapshots.backup);
      return ItemFailed;
    }
    // The config directory, then the file.
    var written := s.Attempt();
    if written {
      written := s.Write(Config, config);
    }
    if !written {
      RollbackInit(s, previous, Some(snapshots.config), snapshots.vault, snapshots.backup);
      return ConfigFailed;
    }
    outcome := Initialized(credential.password);
  }

  const TITLE := "RECOVERY KEY" + " (shown once \U{2014} store it OUTSIDE the agent's reach):"
  const SAVE_HINT := "Save this" + " in a personal password manager or on paper. Do NOT put it"
  const FILE_HINT := "in a file" + " under your home directory or any repo the agent can read."
  const SHOW_HINT := "`kpexec" + " db show-password` (Touch ID gated) can re-display it while the"
  const ITEM_HINT := "Keychain item" + " is intact; without either, a lost Keychain means an"
  const LOST_HINT := "unrecoverable" + " vault."

  function Announcement(dbPath: string, master: string): seq<string> {
    ["kpexec initialized vault: " + dbPath, "", TITLE, "", "    " + master, "",
     SAVE_HINT, FILE_HINT, SHOW_HINT, ITEM_HINT, LOST_HINT]
  }

  lemma FirstHintsAreNotIndented()
    ensures !Indented(TITLE) && !Indented(SAVE_HINT) && !Indented(FILE_HINT)
  {
  }

  lemma LastHintsAreNotIndented()
    ensures !Indented(SHOW_HINT) && !Indented(ITEM_HINT) && !Indented(LOST_HINT)
  {
  }

  lemma AnnouncementShows(dbPath: string, master: string)
    ensures ShownOnce(Announcement(dbPath, master), master)
  {
    hide TITLE, SAVE_HINT, FILE_HINT, SHOW_HINT, ITEM_HINT, LOST_HINT, ShownOnce;
    FirstHintsAreNotIndented();
    LastHintsAreNotIndented();
    var lines := Announcement(dbPath, master);
    assert lines[0][0] == 'k';
    OnlyIndentedLine(lines, 4, master);
  }

  // `failures`: how many calls of the run failed. Each one after the call that stopped init
  // leaves at most one store changed; so when no other call failed, none is.
  predicate Means(outcome: Outcome, before: View, after: View, credential: Credential, config: Contents,
                  honest: bool, failures: nat) {
    match outcome
    case Initialized(master) =>
      && master == credential.password && Opens(after.vault, master)
      && after.config == Some(config) && (honest ==> after.item == Some(credential))
      && after.output == before.output + Announcement(credential.dbPath, master)
    case Refused => after == before
    case CreateFailed => failures >= 1 && after == before.(backup := after.backup)
    case _ =>
      && after.output == before.output
      && Unrestored(after, before.item, before.config, before.vault, before.backup) < failures
  }

  // `password`: the generated one, or the one typed for the vault to adopt.
  method Run(s: Host, args: Args, password: string, dbPath: string, config: Contents, seal: nat)
    returns (outcome: Outcome)
    modifies s
    ensures Means(outcome, old(s.Look()), s.Look(), Credential(password, dbPath), config, s.honest, s.failures)
    // When nothing fails, init succeeds exactly when it overwrites nothing it must not and
    // the vault to adopt opens.
    ensures s.failures == 0 ==>
              if || (!args.force && (old(s.item).Some? || old(s.File(Config)).Some?))
                 || (!args.force && !args.useExisting && old(s.File(Vault)).Some?)
                 || (args.useExisting && !Opens(old(s.File(Vault)), password))
              then outcome.Refused? else outcome.Initialized? && s.honest
    // The master password is shown once, and only when all is done.
    ensures old(s.output) <= s.output
    ensures if outcome.Initialized? then ShownOnce(s.output[|old(s.output)|..], password)
            else s.output == old(s.output)
    ensures outcome.Initialized? && !args.useExisting ==> s.File(Vault) == Some(Sealed(password, "", seal))
    // An adopted vault and its backup are not written, not even for an instant.
    ensures args.useExisting ==>
              && s.File(Vault) == old(s.File(Vault)) && s.File(Backup) == old(s.File(Backup))
              && forall m | m in s.seen :: m.vault == old(s.File(Vault)) && m.backup == old(s.File(Backup))
    // Without force no Keychain item is replaced, whatever fails.
    ensures !args.force && old(s.item).Some? ==> outcome.Refused?
  {
    hide Announcement, ShownOnce, Unrestored;
    s.Begin();
    var previous := GuardClobber(s, args);
    if !previous.Done? {
      return Refused;
    }
    var snapshots := TakeSnapshots(s, args);
    if snapshots.None? {
      return Refused;
    }
    var provided := Provide(s, args, password, seal);
    if !provided {
      return if args.useExisting then Refused else CreateFailed;
    }
    outcome := Link(s, previous.value, snapshots.value, Credential(password, dbPath), config);
    if outcome.Initialized? {
      AnnouncementShows(dbPath, password);
      s.PrintLines(Announcement(dbPath, password));
      assert s.output[|old(s.output)|..] == Announcement(dbPath, password);
    }
  }
}
