// A request against the stores it really has: unlock the vault file, change its entries, save it.
module Sessions {
  import opened Results
  import opened Pins
  import opened Entries
  import opened Handlers
  import opened Stores
  import opened VaultSave

  // How entries are laid out in the file that is sealed.
  datatype Codec = Codec(encode: Db -> string, decode: string -> Db)

  // What is read back is what was written, as long as identities are distinct; and they are in
  // whatever is read.
  ghost predicate Faithful(codec: Codec) {
    && (forall db: Db | UniqueUuids(db) :: codec.decode(codec.encode(db)) == db)
    && (forall text: string :: UniqueUuids(codec.decode(text)))
  }

  // The file can be opened with the password and holds these entries.
  predicate Holds(file: Option<Contents>, password: string, db: Db, codec: Codec) {
    Opens(file, password) && codec.decode(file.value.plain) == db
  }

  // The item opens the vault the request is for.
  predicate Unlocks(s: Host, requested: string, hint: Option<string>)
    reads s
  {
    && s.item.Some? && requested == s.item.value.dbPath && (hint.Some? ==> hint.value == s.item.value.dbPath)
    && Opens(s.File(Vault), s.item.value.password)
  }

  method Unlock(s: Host, requested: string, hint: Option<string>) returns (r: Result<(string, string)>)
    modifies s`clock, s`failures
    ensures s.failures >= old(s.failures)
    ensures r.Ok? ==>
              && Unlocks(s, requested, hint)
              && r.value == (s.item.value.password, s.File(Vault).value.plain)
    ensures s.failures == old(s.failures) ==>
              if s.item.None? then r == Err(UnlockFailed)
              else if requested != s.item.value.dbPath || (hint.Some? && hint.value != s.item.value.dbPath)
              then r == Err(ConfigError)
              else if !Opens(s.File(Vault), s.item.value.password) then r == Err(UnlockFailed)
              else r.Ok?
  {
    var locked := s.Attempt();
    if !locked {
      return Err(ConfigError);
    }
    var item := s.GetItem();
    if !item.Done? {
      return Err(UnlockFailed);
    }
    if requested != item.value.dbPath || (hint.Some? && hint.value != item.value.dbPath) {
      return Err(ConfigError);
    }
    var file := s.Read(Vault);
    if !file.Done? || !Opens(Some(file.value), item.value.password) {
      return Err(UnlockFailed);
    }
    r := Ok((item.value.password, file.value.plain));
  }

  // At every instant the vault file holds the entries from before the request or the wanted
  // ones: the wanted ones in the end if and only if it reports success.
  method RunRequest(s: Host, req: Request, fs: FileSystem, requested: string, hint: Option<string>,
                    codec: Codec, seal: nat)
    returns (r: Result<()>)
    requires Faithful(codec)
    requires s.File(Vault).Some? && s.File(Vault).value.Sealed? ==>
               FreshUuid(req, codec.decode(s.File(Vault).value.plain))
    modifies s
    ensures s.item == old(s.item) && s.File(Config) == old(s.File(Config))
    ensures r.Err? ==> s.File(Vault) == old(s.File(Vault))
    ensures r.Ok? ==>
              && old(Unlocks(s, requested, hint))
              && var wanted := Handle(req, codec.decode(old(s.File(Vault)).value.plain), fs);
                 wanted.Ok? && Holds(s.File(Vault), s.item.value.password, wanted.value, codec)
    ensures forall m | m in s.seen ::
              || m.vault == old(s.File(Vault))
              || (&& old(Unlocks(s, requested, hint))
                  && var wanted := Handle(req, codec.decode(old(s.File(Vault)).value.plain), fs);
                     wanted.Ok? && Holds(m.vault, s.item.value.password, wanted.value, codec))
    ensures s.failures == 0 && old(Unlocks(s, requested, hint)) ==>
              match Handle(req, codec.decode(old(s.File(Vault)).value.plain), fs)
              case Ok(_) => r.Ok?
              case Err(e) => r == Err(e)
  {
    hide Handle, FreshUuid, UniqueUuids;
    s.Begin();
    var unlocked := Unlock(s, requested, hint);
    if unlocked.Err? {
      return Err(unlocked.status);
    }
    var (password, plain) := unlocked.value;
    var vault := new SavedVault(codec.decode(plain));
    r := vault.Dispatch(req, fs, true, true);
    if r.Ok? && vault.saves > 0 {
      HandleKeepsUuids(codec.decode(plain), req, fs);
      var saved, _ := SaveAtomic(s, password, codec.encode(vault.saved), seal);
      if !saved {
        r := Err(Internal);
      }
    }
  }
}
