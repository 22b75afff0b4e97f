/** Recovery-recipient rollback, creation, upgrade and failed unlocks, under failing
    writes and deletes. */
module VaultFaults {
  import opened Wrappers
  import opened Crypto
  import opened Metadata
  import opened Names
  import opened Versions
  import opened VaultModel
  import opened VaultRefinement
  import opened VaultSteps
  import opened VaultRuns
  import opened VaultTheorems

  // --------------------------------------------------------------- rollback

  ghost predicate OnlyRecoveryFilesDiffer(files: Files, files': Files) {
    forall name :: name != RecoveryFile && name != RecoverySumFile ==> Find(files', name) == Find(files, name)
  }

  lemma {:induction false} RestoreSucceedsOrGivesUp(p: Primitives, env: Environment, s: Store, r: Recipient,
                                                    secret: Bytes, attempts: nat)
    requires Lawful(p)
    ensures var (s', ok) := RestoreRecovery(p, env, s, r, secret, attempts);
      && OnlyRecoveryFilesDiffer(s.files, s'.files)
      && ok == !AttemptsFail(env, s.tick, attempts)
      && (ok ==> LoadRecovery(p, secret, s'.files) == Ok(Some(r)))
    decreases attempts
  {
    if attempts > 0 {
      var (s1, ok) := WriteRecovery(p, env, s, r, secret);
      assert OnlyRecoveryFilesDiffer(s.files, s1.files);
      assert p.parseRecipient(p.showRecipient(r)) == Some(r);
      if !ok {
        RestoreSucceedsOrGivesUp(p, env, s1, r, secret, attempts - 1);
        var s' := RestoreRecovery(p, env, s1, r, secret, attempts - 1).0;
        forall name | name != RecoveryFile && name != RecoverySumFile
          ensures Find(s'.files, name) == Find(s.files, name)
        {
          assert Find(s1.files, name) == Find(s.files, name);
        }
      }
    }
  }

  /** The one way a reported failure can lose the previous answer: there was no
      recipient, the first write succeeded, the second did not, and neither did
      removing the first file. */
  predicate LeavesHalfWritten(env: Environment, t: nat, previous: Result<Option<Recipient>>) {
    previous == Ok(None) && !env.writeFails(t) && env.writeFails(t + 1) && env.deleteFails(t + 2)
  }

  /** When setting the recovery recipient is reported as failed, loading it gives the
      same answer as before, for any files and any pattern of failures but one; no
      other file has changed. */
  lemma FailedRecoveryChangeIsRolledBack(p: Primitives, env: Environment, st: State, r: Recipient)
    requires Lawful(p) && Sound(env)
    requires st.mem.identityKey.Some? && st.mem.secret.Some?
    requires SetRecoveryRecipient(p, env, st, r).1 == Failed
    ensures var secret := st.mem.secret.value;
      var before := LoadRecovery(p, secret, st.store.files);
      var st' := SetRecoveryRecipient(p, env, st, r).0;
      && (LoadRecovery(p, secret, st'.store.files) == before <==>
            !LeavesHalfWritten(env, st.store.tick, before))
      && st'.mem == st.mem
      && OnlyRecoveryFilesDiffer(st.store.files, st'.store.files)
  {
    hide Index, Readable, ReencryptAll, RestoreRecovery, RecoveryHash;
    var secret := st.mem.secret.value;
    var before := LoadRecovery(p, secret, st.store.files);
    if before.Ok? {
      var (s1, ok) := WriteRecovery(p, env, st.store, r, secret);
      assert OnlyRecoveryFilesDiffer(st.store.files, s1.files);
      if !ok && before.value.Some? {
        RestoreSucceedsOrGivesUp(p, env, s1, before.value.value, secret, 3);
        var st' := SetRecoveryRecipient(p, env, st, r).0;
        forall name | name != RecoveryFile && name != RecoverySumFile
          ensures Find(st'.store.files, name) == Find(st.store.files, name)
        {
          assert Find(s1.files, name) == Find(st.store.files, name);
        }
      }
    }
  }

  /** From the open vault, changing the recovery recipient is done exactly if its own two
      writes succeed. It stops the process exactly if there was a recipient to put back and
      four attempts in a row fail, the first one and three to restore. */
  lemma RecoveryChangeGivesUpExactlyIf(p: Primitives, env: Environment, values: set<Bytes>, id: Identity, st: State,
                                       a: AState, r: Recipient)
    requires World(p, env) && RefinesFor(p, values, id, st, a) && a.open
    requires CollisionFree(p, values) || a.torn == map[]
    ensures var (t, reply) := (st.store.tick, SetRecoveryRecipient(p, env, st, r).1);
      && (reply == Done <==> !env.writeFails(t) && !env.writeFails(t + 1))
      && (reply == Halted <==> a.recovery.Some? && AttemptsFail(env, t, 4))
      && reply in {Done, Failed, Halted}
  {
    hide Lawful, Coherent, AllSealed, SetRecoveryRecipient, NeedsRecoveryHash, CollisionFree, AttemptsFail;
    SetRecoveryStep(p, env, values, id, st, a, r);
  }

  // ------------------------------------------------- authenticity of the recipient

  /** A recipient is loaded exactly if the hash on file is that of this recipient and the
      vault's secret. */
  lemma RecipientIsAuthentic(p: Primitives, secret: Bytes, files: Files, r: Recipient)
    ensures LoadRecovery(p, secret, files) == Ok(Some(r)) <==>
      && RecoveryFile in files && p.parseRecipient(files[RecoveryFile]) == Some(r)
      && Find(files, RecoverySumFile) == Some(p.hex(p.sha256(p.showRecipient(r) + secret)))
    ensures LoadRecovery(p, secret, files) == Ok(None) <==> RecoveryFile !in files
  {
  }

  /** Replacing the recipient on file by another one is noticed, unless the hashes of the
      two collide; so is a secret of another vault. */
  lemma ForeignRecipientIsRefused(p: Primitives, secret: Bytes, secret': Bytes, files: Files, r: Recipient,
                                  r': Recipient)
    requires Lawful(p) && LoadRecovery(p, secret, files) == Ok(Some(r))
    requires p.hex(p.sha256(p.showRecipient(r') + secret')) != p.hex(p.sha256(p.showRecipient(r) + secret))
    ensures LoadRecovery(p, secret', files[RecoveryFile := p.showRecipient(r')]) == Err
  {
    assert p.parseRecipient(p.showRecipient(r')) == Some(r');
  }

  // --------------------------------------------------------------- creation

  /** What creating an item and setting its value leave in memory: the checksum is the hash
      of the value, and the time is that of the change. */
  lemma ItemRecordsChange(p: Primitives, env: Environment, st: State, description: string, i: Uuid, value: Bytes)
    ensures var (st1, reply) := CreateItem(p, env, st, description, i);
      reply == Done ==> Find(ItemsOf(st1.mem), i) == Some(Item(i, description, None, [], env.now(st.store.tick)))
    ensures var (st1, reply) := SetItemValue(p, env, st, i, value);
      reply == Done && (forall j :: j in ItemsOf(st.mem) ==> ItemsOf(st.mem)[j].id == j) ==>
        && i in ItemsOf(st.mem)
        && exists t | st.store.tick <= t < st1.store.tick ::
             Find(ItemsOf(st1.mem), i) ==
             Some(ItemsOf(st.mem)[i].(checksum := p.hex(p.sha256(value)), modifiedAt := env.now(t)))
  {
    hide EncryptForRest, Frame;
    var st1 := SetItemValue(p, env, st, i, value).0;
    if SetItemValue(p, env, st, i, value).1 == Done && forall j :: j in ItemsOf(st.mem) ==> ItemsOf(st.mem)[j].id == j {
      var t := if ItemsOf(st.mem)[i].checksum != [] then st.store.tick + 1 else st.store.tick;
      assert st.store.tick <= t < st1.store.tick;
    }
  }

  /** A creation request either fails and leaves the index and every file as they were,
      or succeeds and the value can be read; the process never stops. It succeeds exactly
      if the vault is open, the passphrase is hashed to the vault's key, there is a value,
      and none of the three writes fails. */
  lemma CreationIsAllOrNothing(p: Primitives, env: Environment, values: set<Bytes>, st: State, a: AState,
                               passphrase: Bytes, description: string, i: Uuid, value: Bytes)
    requires World(p, env) && Refines(p, values, st, a) && value in values
    requires i !in a.entries && MetadataFile(i) !in st.store.files
    ensures var (st', reply) := CreateVaultItem(p, env, st, passphrase, description, i, value);
      && reply in {Done, Failed}
      && (reply == Done <==>
            && a.open && a.key == Some(p.sha256(passphrase + if env.secure then Sentinel else [])) && value != []
            && Clean(env, st.store.tick, st.store.tick + 3))
      && (reply == Failed ==> st'.mem == st.mem && st'.store.files == st.store.files)
      && (reply == Done ==>
            && GetItem(p, st', i) == Got(Some(value))
            && Refines(p, values, st', a.(entries := a.entries[i := Entry(description, None, Some(value))],
                                          outdated := a.outdated - {i})))
  {
    hide Lawful, Coherent, AllSealed, NeedsRecoveryHash, KeyOf, CreateItem, SetItemValue, DeleteItem, AfterSet, GetItem;
    KeyIsHash(p, env, passphrase);
    if VerifyPassphrase(p, env, st, passphrase) {
      var id :| RefinesFor(p, values, id, st, a);
      KeyWhenOpen(p, values, id, st, a);
      NoEntryNoValueFile(p, values, id, st, a, i);
      CreateAndSet(p, env, values, id, st, a, description, i, value);
      var (st1, created) := CreateItem(p, env, st, description, i);
      if created == Done {
        if SetItemValue(p, env, st1, i, value).1 == Failed {
          CreationIsUndone(p, env, st, description, i, value);
        }
      } else {
        FailedCreateChangesNothing(p, env, st, description, i);
      }
    } else if a.key.Some? {
      var id :| RefinesFor(p, values, id, st, a);
      KeyWhenOpen(p, values, id, st, a);
    }
  }

  lemma KeyWhenOpen(p: Primitives, values: set<Bytes>, id: Identity, st: State, a: AState)
    requires RefinesFor(p, values, id, st, a)
    ensures st.mem.identityKey == if a.open then a.key else None
  {
    hide BaseOk, IndexOk, ValuesOk, AllSealed, HmacSecret, Index;
  }

  /** From empty storage, after a first unlock and any operations on a working backend, the
      open vault creates an item with a value for exactly the passphrases that are hashed
      like the first one. */
  lemma CreationNeedsFirstKey(p: Primitives, env: Environment, values: set<Bytes>, first: Bytes, ops: seq<Op>,
                              passphrase: Bytes, description: string, i: Uuid, value: Bytes)
    requires World(p, env) && Reliable(env) && ValuesAmong(values, ops) && value in values && value != []
    requires FreshIds(p, env, Empty, [Unlock(first)] + ops)
    requires var st := Run(p, env, EmptyStorage, [Unlock(first)] + ops).0;
      st.mem.identityKey.Some? && i !in ItemsOf(st.mem) && MetadataFile(i) !in st.store.files
    ensures var st := Run(p, env, EmptyStorage, [Unlock(first)] + ops).0;
      CreateVaultItem(p, env, st, passphrase, description, i, value).1 ==
        if SameKey(p, env, passphrase, first) then Done else Failed
  {
    hide Lawful, Step, Coherent, AllSealed, NeedsRecoveryHash, KeyOf, CreateVaultItem, Run;
    var all := [Unlock(first)] + ops;
    assert all[1..] == ops;
    assert ValuesAmong(values, all) by {
      forall op | op in all && op.Set? ensures op.value in values { assert op in ops; }
    }
    RunsAreIdeal(p, env, values, EmptyStorage, Empty, all);
    IdealKeyNeverChanges(p, env, Ideal(p, env, Empty, Unlock(first)).0, ops);
    var st, a := Run(p, env, EmptyStorage, all).0, IdealRun(p, env, Empty, all).0;
    var id :| RefinesFor(p, values, id, st, a);
    KeyWhenOpen(p, values, id, st, a);
    ItemsInMemory(p, values, id, st, a);
    CreationIsAllOrNothing(p, env, values, st, a, passphrase, description, i, value);
    SameKeyIsSameHash(p, env, passphrase, first);
    KeyIsHash(p, env, passphrase);
  }

  lemma KeyIsHash(p: Primitives, env: Environment, passphrase: Bytes)
    ensures KeyOf(p, env, passphrase) == p.sha256(passphrase + if env.secure then Sentinel else [])
  {
  }

  /** Creating an item and setting its value in the open vault. */
  lemma CreateAndSet(p: Primitives, env: Environment, values: set<Bytes>, id: Identity, st: State, a: AState,
                     description: string, i: Uuid, value: Bytes)
    requires Lawful(p) && RefinesFor(p, values, id, st, a) && a.open && value in values
    requires i !in a.entries && i !in a.torn
    ensures var (st1, created) := CreateItem(p, env, st, description, i);
      && i !in ItemsOf(st.mem)
      && created in {Done, Failed} && (created == Done <==> !env.writeFails(st.store.tick))
      && (created == Done ==>
            var (st2, reply) := SetItemValue(p, env, st1, i, value);
            && reply in {Done, Failed}
            && (reply == Done <==> value != [] && Clean(env, st.store.tick + 1, st.store.tick + 3))
            && (reply == Done ==>
                  && GetItem(p, st2, i) == Got(Some(value))
                  && RefinesFor(p, values, id, st2,
                                a.(entries := a.entries[i := Entry(description, None, Some(value))],
                                   outdated := a.outdated - {i}))))
  {
    hide Lawful, RefinesFor, CreateItem, SetItemValue, AfterSet, GetItem;
    NewInMemory(p, values, id, st, a, i);
    CreateStep(p, env, values, id, st, a, description, i);
    var (st1, created) := CreateItem(p, env, st, description, i);
    if created == Done {
      var a1 := a.(entries := a.entries[i := Entry(description, None, None)]);
      assert RefinesFor(p, values, id, st1, a1);
      SetAndGet(p, env, values, id, st1, a1, i, value);
      var a2 := Record(a1, i, value);
      assert a2.entries == a.entries[i := Entry(description, None, Some(value))];
      assert a2.torn == a.torn;
    }
  }

  lemma NewInMemory(p: Primitives, values: set<Bytes>, id: Identity, st: State, a: AState, i: Uuid)
    requires RefinesFor(p, values, id, st, a) && i !in a.entries
    ensures i !in ItemsOf(st.mem)
  {
    hide Coherent, AllSealed;
    ItemsInMemory(p, values, id, st, a);
  }

  /** A value that could be set can be read. */
  lemma SetAndGet(p: Primitives, env: Environment, values: set<Bytes>, id: Identity, st: State, a: AState, i: Uuid,
                  value: Bytes)
    requires Lawful(p) && RefinesFor(p, values, id, st, a) && a.open && i in a.entries && value in values
    ensures var (st', reply) := SetItemValue(p, env, st, i, value);
      && reply in {Done, Failed}
      && (reply == Done <==> value != [] && Clean(env, st.store.tick, st.store.tick + WritesOf(a.entries[i])))
      && (reply == Done ==>
            && GetItem(p, st', i) == Got(Some(value))
            && RefinesFor(p, values, id, st', Record(a, i, value)))
  {
    hide Lawful, Coherent, AllSealed, SetItemValue, AfterSet, GetItem;
    SetStep(p, env, values, id, st, a, i, value);
    var (st', reply) := SetItemValue(p, env, st, i, value);
    if reply == Done {
      GetStep(p, env, values, id, st', Record(a, i, value), i);
    }
  }

  lemma NoEntryNoValueFile(p: Primitives, values: set<Bytes>, id: Identity, st: State, a: AState, i: Uuid)
    requires Coherent(p, values, id, st, a) && i !in a.entries
    ensures ValueFile(i) !in st.store.files && i !in a.torn
  {
    hide BaseOk, IndexOk;
  }

  lemma FailedCreateChangesNothing(p: Primitives, env: Environment, st: State, description: string, i: Uuid)
    requires CreateItem(p, env, st, description, i).1 == Failed
    ensures CreateItem(p, env, st, description, i).0.mem == st.mem
    ensures CreateItem(p, env, st, description, i).0.store.files == st.store.files
  {
  }

  /** Deleting a new item whose value could not be set removes every trace of it. */
  lemma CreationIsUndone(p: Primitives, env: Environment, st: State, description: string, i: Uuid, value: Bytes)
    requires DeletesSucceed(env) && st.mem.identityKey.Some?
    requires i !in ItemsOf(st.mem) && MetadataFile(i) !in st.store.files && ValueFile(i) !in st.store.files
    requires CreateItem(p, env, st, description, i).1 == Done
    requires SetItemValue(p, env, CreateItem(p, env, st, description, i).0, i, value).1 == Failed
    ensures var st2 := SetItemValue(p, env, CreateItem(p, env, st, description, i).0, i, value).0;
      && DeleteItem(env, st2, i).0.mem == st.mem
      && DeleteItem(env, st2, i).0.store.files == st.store.files
  {
    hide EncryptForRest, Frame, Sum;
    var st1 := CreateItem(p, env, st, description, i).0;
    var st2 := SetItemValue(p, env, st1, i, value).0;
    assert ItemsOf(st1.mem) - {i} == ItemsOf(st.mem);
    assert st2.mem == st1.mem;
    var files := st2.store.files;
    assert forall name :: name != MetadataFile(i) && name != ValueFile(i) ==>
      Find(files, name) == Find(st.store.files, name);
    var final := files - {MetadataFile(i)} - {ValueFile(i)};
    assert DeleteItem(env, st2, i).0.store.files == final;
    forall name ensures Find(final, name) == Find(st.store.files, name) {}
    SameLookups(final, st.store.files);
  }

  lemma SameLookups(files: Files, files': Files)
    requires forall name :: Find(files, name) == Find(files', name)
    ensures files == files'
  {
    forall name ensures name in files <==> name in files' {
      assert Find(files, name) == Find(files', name);
    }
    forall name | name in files ensures files[name] == files'[name] {
      assert Find(files, name) == Find(files', name);
    }
  }

  // --------------------------------------------------------------- deletion

  /** A deleted item is always gone from memory, but it is back after the next unlock
      exactly when its metadata file could not be deleted. */
  lemma DeletedItemReturns(p: Primitives, env: Environment, values: set<Bytes>, id: Identity, st: State, a: AState,
                           i: Uuid)
    requires RefinesFor(p, values, id, st, a) && a.open && i in a.entries
    ensures var (st', reply) := DeleteItem(env, st, i);
      && reply == Done && i !in ItemsOf(st'.mem)
      && (i in Index(p, HmacSecret(p, id), st'.store.files) <==> env.deleteFails(st.store.tick))
  {
    hide Index, BaseOk, HmacSecret, Matches, AllSealed, ValuesOk, Readable;
    var secret := HmacSecret(p, id);
    var files := st.store.files;
    ItemsInMemory(p, values, id, st, a);
    var files1 := DeleteFile(env, st.store, MetadataFile(i)).0.files;
    IndexAfterDelete(p, secret, files, MetadataFile(i));
    IndexAfterDelete(p, secret, files1, ValueFile(i));
  }

  // ---------------------------------------------------------------- upgrade

  /** The first upgrade of a store from before recipients were verified keeps its
      recipient, which could not be loaded until then. */
  lemma UpgradeKeepsRecipient(p: Primitives, env: Environment, s: Store, secret: Bytes, r: Recipient)
    requires Lawful(p) && Clean(env, s.tick, s.tick + 2)
    requires CurrentVersion(p, s.files).Ok? && NeedsRecoveryHash(CurrentVersion(p, s.files).value)
    requires RecoverySumFile !in s.files && Find(s.files, RecoveryFile) == Some(p.showRecipient(r))
    ensures LoadRecovery(p, secret, s.files) == Err
    ensures var (s', ok) := Upgrade(p, env, s, secret); ok && LoadRecovery(p, secret, s'.files) == Ok(Some(r))
  {
    hide NeedsRecoveryHash, RecoveryHash;
    assert p.parseRecipient(p.showRecipient(r)) == Some(r);
    assert !env.writeFails(s.tick) && !env.writeFails(s.tick + 1);
  }

  /** On a working backend an upgrade succeeds exactly if the version on file can be read and,
      for an old store, there is no recovery hash yet and the recipient, if any, can be read.
      It records the version and, for an old store with a recipient, the recipient's hash. */
  lemma UpgradeSucceedsExactlyIf(p: Primitives, env: Environment, s: Store, secret: Bytes)
    requires Reliable(env)
    ensures var (s', ok) := Upgrade(p, env, s, secret);
      var recorded := if VersionFile in s.files then p.parseVersion(s.files[VersionFile]) else None;
      var isOld := recorded.None? || LessEqual(recorded.value, BeforeRecoveryVerified);
      var recipient := if RecoveryFile in s.files then p.parseRecipient(s.files[RecoveryFile]) else None;
      && (ok <==>
            && (VersionFile in s.files ==> recorded.Some?)
            && (isOld ==> RecoverySumFile !in s.files && (RecoveryFile in s.files ==> recipient.Some?)))
      && (ok ==> forall name ::
            Find(s'.files, name) ==
              if name == VersionFile then Some(p.showVersion(env.storeVersion))
              else if name == RecoverySumFile && isOld && recipient.Some?
              then Some(p.hex(p.sha256(p.showRecipient(recipient.value) + secret)))
              else Find(s.files, name))
      && (!ok ==> s'.files == s.files)
  {
    hide LessEqual;
  }

  /** An upgraded store can be upgraded again, so the vault can be unlocked again,
      exactly when the store's own version is above 0.2.0 or no recovery hash exists. */
  lemma UpgradeIsRepeatable(p: Primitives, env: Environment, s: Store, secret: Bytes)
    requires Lawful(p) && Reliable(env) && Upgrade(p, env, s, secret).1
    requires RecoveryFile in s.files ==> p.parseRecipient(s.files[RecoveryFile]).Some?
    ensures var s1 := Upgrade(p, env, s, secret).0;
      Upgrade(p, env, s1, secret).1 <==>
        !LessEqual(env.storeVersion, BeforeRecoveryVerified) || RecoverySumFile !in s1.files
  {
    hide LessEqual, RecoveryHash;
    assert p.parseVersion(p.showVersion(env.storeVersion)) == Some(env.storeVersion);
  }

  /** Which stores count as old: 0.2.0 and everything before it, pre-releases included. */
  lemma VersionsBeforeRecoveryVerified(v: Version)
    ensures NeedsRecoveryHash(Some(v)) <==>
      v.major == 0 && (v.minor < 2 || (v.minor == 2 && v.patch == 0))
  {
  }

  // --------------------------------------------------------- failed unlocks

  /** A failed unlock leaves the vault locked, with nothing kept in memory, exactly
      when it is the passphrase that was found wrong. */
  lemma FailedUnlockStaysLocked(p: Primitives, env: Environment, st: State, passphrase: Bytes)
    requires st.mem == Locked && UnlockVault(p, env, st, passphrase).1 == Failed
    ensures var files := st.store.files;
      UnlockVault(p, env, st, passphrase).0.mem == Locked <==>
        IdentityFile in files && ReadIdentity(p, files, KeyOf(p, env, passphrase)) == Fail
  {
    hide Upgrade, ReadIdentity, Index, Readable, SealedIdentity, KeyOf;
  }
}
