/** What the run theorems mean for the users of the vault, and the results about
    single calls under failing writes. */
module VaultTheorems {
  import opened Wrappers
  import opened Crypto
  import opened Metadata
  import opened Names
  import opened Versions
  import opened VaultModel
  import opened VaultRefinement
  import opened VaultSteps
  import opened VaultRuns

  const EmptyStorage := State(Store(map[], 0), Locked)

  // --------------------------------------------------------- working backend

  /** From empty storage, the value file of every item that has a value can be opened
      by the vault's identity and the current recovery identity, and by nobody else. */
  lemma ValuesOpenForRecipientsOnly(p: Primitives, env: Environment, values: set<Bytes>, ops: seq<Op>, i: Uuid)
    requires World(p, env) && Reliable(env) && FreshIds(p, env, Empty, ops) && ValuesAmong(values, ops)
    requires var a := IdealRun(p, env, Empty, ops).0; i in a.entries && a.entries[i].value.Some?
    ensures var (st, a) := (Run(p, env, EmptyStorage, ops).0, IdealRun(p, env, Empty, ops).0);
      && a.key.Some? && ReadIdentity(p, st.store.files, a.key.value).Return?
      && ValueFile(i) in st.store.files
      && var own := p.recipientOf(ReadIdentity(p, st.store.files, a.key.value).value);
      forall k :: p.decrypt(k, st.store.files[ValueFile(i)]) ==
        if p.recipientOf(k) == own || a.recovery == Some(p.recipientOf(k)) then a.entries[i].value else None
  {
    hide Step, IndexOk, ValuesOk, NeedsRecoveryHash, Ideal, AllSealed;
    RunsAreIdeal(p, env, values, EmptyStorage, Empty, ops);
    var st, a := Run(p, env, EmptyStorage, ops).0, IdealRun(p, env, Empty, ops).0;
    assert i !in a.torn.Keys && i !in a.outdated;
    var id :| RefinesFor(p, values, id, st, a);
    SealedOpensForRecipients(p, values, id, st, a, i);
  }

  /** The value of an item that is neither torn nor outdated. */
  lemma SealedOpensForRecipients(p: Primitives, values: set<Bytes>, id: Identity, st: State, a: AState, i: Uuid)
    requires Lawful(p) && RefinesFor(p, values, id, st, a)
    requires i in a.entries && a.entries[i].value.Some? && i !in a.torn && i !in a.outdated
    ensures ValueFile(i) in st.store.files
    ensures var own := p.recipientOf(id);
      forall k :: p.decrypt(k, st.store.files[ValueFile(i)]) ==
        if p.recipientOf(k) == own || a.recovery == Some(p.recipientOf(k)) then a.entries[i].value else None
  {
    hide Index, BaseOk, IndexOk, ValuesOk, HmacSecret;
    assert Sealed(p, RecipientsOf(p, id, a), st.store.files, i, Stored(a, i));
  }

  /** Whatever has failed before, a change of the recovery recipient that meets no failing
      write leaves every value, of all items but the torn ones, open to exactly the
      vault's identity and the new recovery identity. */
  lemma CleanChangeSealsAll(p: Primitives, env: Environment, values: set<Bytes>, id: Identity, st: State, a: AState,
                            r: Recipient, i: Uuid)
    requires World(p, env) && RefinesFor(p, values, id, st, a) && a.open
    requires CollisionFree(p, values) || a.torn == map[]
    requires i in a.entries && a.entries[i].value.Some? && i !in a.torn
    requires Clean(env, st.store.tick, SetRecoveryRecipient(p, env, st, r).0.store.tick)
    ensures var (st', reply) := SetRecoveryRecipient(p, env, st, r);
      && reply == Done && ValueFile(i) in st'.store.files
      && forall k :: p.decrypt(k, st'.store.files[ValueFile(i)]) ==
           if p.recipientOf(k) == p.recipientOf(id) || p.recipientOf(k) == r then a.entries[i].value else None
  {
    hide Lawful, Coherent, AllSealed, SetRecoveryRecipient, NeedsRecoveryHash, CollisionFree;
    SetRecoveryStep(p, env, values, id, st, a, r);
    var st', a' := SetRecoveryRecipient(p, env, st, r).0, Ideal(p, env, a, SetRecovery(r)).0;
    SealedOpensForRecipients(p, values, id, st', a', i);
  }

  /** From empty storage, the index is exactly what the files say, and a value file
      exists for exactly the items with a checksum. */
  lemma IndexIsCoherent(p: Primitives, env: Environment, values: set<Bytes>, ops: seq<Op>)
    requires World(p, env) && Reliable(env) && FreshIds(p, env, Empty, ops) && ValuesAmong(values, ops)
    ensures var st := Run(p, env, EmptyStorage, ops).0;
      st.mem.identityKey.Some? ==>
        && st.mem.secret.Some?
        && Readable(st.store.files)
        && st.mem.items == Some(Index(p, st.mem.secret.value, st.store.files))
        && forall i :: ValueFile(i) in st.store.files <==>
                       i in ItemsOf(st.mem) && ItemsOf(st.mem)[i].checksum != []
  {
    hide Step, NeedsRecoveryHash, Index, Lawful, BaseOk;
    RunsAreIdeal(p, env, values, EmptyStorage, Empty, ops);
    var st, a := Run(p, env, EmptyStorage, ops).0, IdealRun(p, env, Empty, ops).0;
    if a.key.Some? {
      var id :| RefinesFor(p, values, id, st, a);
      ItemsInMemory(p, values, id, st, a);
      forall i | a.open
        ensures ValueFile(i) in st.store.files <==> i in ItemsOf(st.mem) && ItemsOf(st.mem)[i].checksum != []
      {
        if i in a.entries {
          IndexedItem(p, values, id, st, a, i);
          assert Holds(p, id, st.store.files, i, Stored(a, i)) && i !in a.torn.Keys;
          if a.entries[i].value.Some? { SumIsNotEmpty(p, a.entries[i].value.value); }
        }
      }
    }
  }

  /** Locking and unlocking with the same passphrase restores the memory exactly,
      even after writes have failed. */
  lemma LockUnlockRestores(p: Primitives, env: Environment, values: set<Bytes>, st: State, a: AState, passphrase: Bytes)
    requires World(p, env) && Refines(p, values, st, a) && a.open
    requires a.key == Some(KeyOf(p, env, passphrase)) && !env.writeFails(st.store.tick)
    ensures LockVault(st).1 == Done
    ensures var (st', reply) := UnlockVault(p, env, LockVault(st).0, passphrase);
      && reply == Done
      && st'.mem == st.mem
      && forall name :: name != VersionFile ==> Find(st'.store.files, name) == Find(st.store.files, name)
  {
    hide NeedsRecoveryHash, Index, Lawful, HmacSecret, ValuesOk, LoadRecovery, LessEqual, KeyOf, Readable, Matches;
    var id :| RefinesFor(p, values, id, st, a);
    IndexAfterOtherWrite(p, HmacSecret(p, id), st.store.files, VersionFile, p.showVersion(env.storeVersion));
  }

  lemma {:induction false} IdealKeyNeverChanges(p: Primitives, env: Environment, a: AState, ops: seq<Op>)
    requires a.key.Some?
    ensures IdealRun(p, env, a, ops).0.key == a.key
    decreases |ops|
  {
    if ops != [] {
      IdealKeyNeverChanges(p, env, Ideal(p, env, a, ops[0]).0, ops[1..]);
    }
  }

  /** Two passphrases are hashed to the same key. */
  predicate SameKey(p: Primitives, env: Environment, x: Bytes, y: Bytes) {
    if env.secure then p.sha256(x + Sentinel) == p.sha256(y + Sentinel) else p.sha256(x) == p.sha256(y)
  }

  lemma SameKeyIsSameHash(p: Primitives, env: Environment, x: Bytes, y: Bytes)
    ensures SameKey(p, env, x, y) <==> KeyOf(p, env, x) == KeyOf(p, env, y)
  {
    assert x + [] == x && y + [] == y;
  }

  /** From empty storage, after a first unlock and any further operations, a locked
      vault is opened by exactly the passphrases that are hashed like the first one, so by
      no other passphrase unless the two collide; any other changes neither files nor
      memory, and the vault stays locked. */
  lemma UnlockNeedsFirstKey(p: Primitives, env: Environment, values: set<Bytes>, first: Bytes, ops: seq<Op>,
                            passphrase: Bytes)
    requires World(p, env) && Reliable(env) && ValuesAmong(values, ops)
    requires FreshIds(p, env, Empty, [Unlock(first)] + ops)
    ensures var st := Run(p, env, EmptyStorage, [Unlock(first)] + ops).0;
      st.mem.identityKey.None? ==>
        var (st', reply) := UnlockVault(p, env, st, passphrase);
        && (reply == Done <==> SameKey(p, env, passphrase, first))
        && ((SameKey(p, env, passphrase, first) ==> passphrase == first) ==> (reply == Done <==> passphrase == first))
        && (reply != Done ==> reply == Failed && st' == st && st.mem == Locked)
  {
    hide Index, HmacSecret, Lawful, IndexOk, ValuesOk, KeyOf, NeedsRecoveryHash, LoadRecovery, LessEqual, Run;
    var all := [Unlock(first)] + ops;
    assert all[1..] == ops;
    assert ValuesAmong(values, all) by {
      forall op | op in all && op.Set? ensures op.value in values { assert op in ops; }
    }
    RunsAreIdeal(p, env, values, EmptyStorage, Empty, all);
    IdealKeyNeverChanges(p, env, Ideal(p, env, Empty, Unlock(first)).0, ops);
    var st, a := Run(p, env, EmptyStorage, all).0, IdealRun(p, env, Empty, all).0;
    assert a.key == Some(KeyOf(p, env, first));
    var id :| RefinesFor(p, values, id, st, a);
    SameKeyIsSameHash(p, env, passphrase, first);
    if !a.open {
      UnlockStep(p, env, values, id, st, a, passphrase);
    }
  }

  /** A locked vault that has been unlocked holds the hash of the passphrase, the secret and
      recipient of the identity that this key opens, and exactly the items whose metadata
      files are authentic under that secret; the store's version is on record. The first
      unlock has sealed a new identity with the key. */
  lemma UnlockOpensIdentity(p: Primitives, env: Environment, st: State, passphrase: Bytes)
    requires Lawful(p) && Sound(env) && st.mem.identityKey.None?
    requires UnlockVault(p, env, st, passphrase).1 == Done
    ensures var st' := UnlockVault(p, env, st, passphrase).0;
      var key := p.sha256(passphrase + if env.secure then Sentinel else []);
      && IdentityFile in st'.store.files && |st'.store.files[IdentityFile]| >= 12
      && var data := st'.store.files[IdentityFile];
      var text := p.unseal(key, data[..12], data[12..]);
      && text.Some? && p.parseIdentity(text.value).Some?
      && var id := p.parseIdentity(text.value).value;
      var secret := p.sha256(p.showIdentity(id));
      && st'.mem.identityKey == Some(key)
      && st'.mem.secret == Some(secret)
      && st'.mem.primary == Some(p.recipientOf(id))
      && st'.mem.items.Some?
      && (forall i, item :: Find(ItemsOf(st'.mem), i) == Some(item) <==>
            item.id == i &&
            exists payload :: Find(st'.store.files, MetadataFile(i)) == Some(payload + p.hmac(secret, payload)) &&
                              p.decodeItem(payload) == Some(item))
      && Find(st'.store.files, VersionFile) == Some(p.showVersion(env.storeVersion))
      && (if IdentityFile in st.store.files then data == st.store.files[IdentityFile]
          else id == env.newIdentity(st.store.tick))
  {
    hide Index, NeedsRecoveryHash, RecoveryHash, Lawful;
    var st' := UnlockVault(p, env, st, passphrase).0;
    UpgradeRecordsVersion(p, env, st, passphrase);
    var key := p.sha256(passphrase + if env.secure then Sentinel else []);
    if IdentityFile !in st.store.files {
      var id := env.newIdentity(st.store.tick);
      var nonce := env.gcmNonce(st.store.tick);
      var sealed := SealedIdentity(p, key, nonce, id);
      assert sealed[..12] == nonce && sealed[12..] == p.seal(key, nonce, p.showIdentity(id));
      SealedIsOpened(p, key, nonce, id);
    }
    forall i, item
      ensures Find(ItemsOf(st'.mem), i) == Some(item) <==>
        item.id == i &&
        exists payload ::
          Find(st'.store.files, MetadataFile(i)) == Some(payload + p.hmac(st'.mem.secret.value, payload)) &&
          p.decodeItem(payload) == Some(item)
    {
      IndexIsExact(p, st'.mem.secret.value, st'.store.files, i, item);
    }
  }

  lemma SealedIsOpened(p: Primitives, key: Bytes, nonce: Bytes, id: Identity)
    requires Lawful(p)
    ensures p.unseal(key, nonce, p.seal(key, nonce, p.showIdentity(id))) == Some(p.showIdentity(id))
    ensures p.parseIdentity(p.showIdentity(id)) == Some(id)
  {
  }

  /** Unlocking touches the identity file only if there is none. */
  lemma UpgradeRecordsVersion(p: Primitives, env: Environment, st: State, passphrase: Bytes)
    requires st.mem.identityKey.None? && UnlockVault(p, env, st, passphrase).1 == Done
    ensures var files' := UnlockVault(p, env, st, passphrase).0.store.files;
      && Find(files', VersionFile) == Some(p.showVersion(env.storeVersion))
      && Find(files', IdentityFile) ==
           if IdentityFile in st.store.files then Find(st.store.files, IdentityFile)
           else Some(SealedIdentity(p, KeyOf(p, env, passphrase), env.gcmNonce(st.store.tick),
                                    env.newIdentity(st.store.tick)))
  {
    hide Index, Readable, ReadIdentity, SealedIdentity, NeedsRecoveryHash, RecoveryHash, KeyOf, HmacSecret;
  }

  lemma {:induction false} IdealRunOfConcat(p: Primitives, env: Environment, a: AState, x: seq<Op>, y: seq<Op>)
    ensures IdealRun(p, env, a, x + y).0 == IdealRun(p, env, IdealRun(p, env, a, x).0, y).0
    decreases |x|
  {
    hide Ideal;
    if x == [] {
      assert x + y == y;
    } else {
      assert (x + y)[1..] == x[1..] + y;
      IdealRunOfConcat(p, env, Ideal(p, env, a, x[0]).0, x[1..], y);
    }
  }

  /** Does the operation write or remove item `i`? */
  predicate Touches(op: Op, i: Uuid) {
    (op.Set? && op.id == i) || (op.Delete? && op.id == i) || (op.Create? && op.id == i)
  }

  /** An operation that does not touch an item leaves its value and description alone,
      disturbed or not. */
  lemma UntouchedByStep(p: Primitives, env: Environment, a: AState, op: Op, reply: Reply, from: nat, until: nat,
                        i: Uuid)
    requires i in a.entries && !Touches(op, i)
    ensures var a' := Track(p, env, a, op, reply, from, until);
      && i in a'.entries
      && a'.entries[i].value == a.entries[i].value
      && a'.entries[i].description == a.entries[i].description
      && (i in a'.torn <==> i in a.torn)
  {
    hide Undisturbed, Clean;
  }

  lemma {:induction false} UntouchedByIdealRun(p: Primitives, env: Environment, a: AState, ops: seq<Op>, i: Uuid)
    requires i in a.entries && forall op :: op in ops ==> !Touches(op, i)
    ensures var a' := IdealRun(p, env, a, ops).0;
      i in a'.entries && a'.entries[i].value == a.entries[i].value
    decreases |ops|
  {
    hide Ideal;
    if ops != [] {
      assert ops[0] in ops && Undisturbed(env, ops[0], 0, 0);
      UntouchedByStep(p, env, a, ops[0], Done, 0, 0, i);
      forall op | op in ops[1..] ensures !Touches(op, i) { assert op in ops; }
      UntouchedByIdealRun(p, env, Ideal(p, env, a, ops[0]).0, ops[1..], i);
    }
  }

  /** From empty storage: once a value has been set for an item, every later read of it
      while the vault is open gives that value, whatever was done in between to other
      items, to the recovery recipient, to peers, or by locking and unlocking. */
  lemma LastValueIsRead(p: Primitives, env: Environment, values: set<Bytes>, before: seq<Op>, i: Uuid, value: Bytes,
                        between: seq<Op>)
    requires var ops := before + [Set(i, value)] + between;
      World(p, env) && Reliable(env) && FreshIds(p, env, Empty, ops) && ValuesAmong(values, ops)
    requires forall op :: op in between ==> !Touches(op, i)
    requires Ideal(p, env, IdealRun(p, env, Empty, before).0, Set(i, value)).1 == Done
    ensures var st := Run(p, env, EmptyStorage, before + [Set(i, value)] + between).0;
      st.mem.identityKey.Some? ==> GetItem(p, st, i) == Got(Some(value))
  {
    hide Step, Lawful, NeedsRecoveryHash, HmacSecret, Index, BaseOk, IndexOk, ValuesOk, GetItem, Ideal;
    var ops := before + [Set(i, value)] + between;
    RunsAreIdeal(p, env, values, EmptyStorage, Empty, ops);
    var a0 := IdealRun(p, env, Empty, before).0;
    var a1 := Ideal(p, env, a0, Set(i, value)).0;
    assert ops == before + ([Set(i, value)] + between);
    IdealRunOfConcat(p, env, Empty, before, [Set(i, value)] + between);
    assert ([Set(i, value)] + between)[1..] == between;
    assert IdealRun(p, env, a0, [Set(i, value)] + between).0 == IdealRun(p, env, a1, between).0;
    SetIsDone(p, env, a0, i, value);
    UntouchedByIdealRun(p, env, a1, between, i);
    var st, a := Run(p, env, EmptyStorage, ops).0, IdealRun(p, env, Empty, ops).0;
    IdealGet(p, env, values, st, a, i);
  }

  lemma SetIsDone(p: Primitives, env: Environment, a: AState, i: Uuid, value: Bytes)
    requires Ideal(p, env, a, Set(i, value)).1 == Done
    ensures var a1 := Ideal(p, env, a, Set(i, value)).0; i in a1.entries && a1.entries[i].value == Some(value)
  {
  }

  lemma IdealGet(p: Primitives, env: Environment, values: set<Bytes>, st: State, a: AState, i: Uuid)
    requires World(p, env) && Refines(p, values, st, a) && i in a.entries
    requires CollisionFree(p, values) || i !in a.torn
    ensures st.mem.identityKey.Some? ==>
      && GetItem(p, st, i) == Read(a, i)
      && i in ItemsOf(st.mem) && Matches(p, ItemsOf(st.mem)[i], a.entries[i])
  {
    hide Lawful, NeedsRecoveryHash, GetItem, Coherent, AllSealed, Matches, CollisionFree;
    if a.key.Some? {
      var id :| RefinesFor(p, values, id, st, a);
      MemoryWhenOpen(p, values, id, st, a);
      ItemsInMemory(p, values, id, st, a);
      IndexedItem(p, values, id, st, a, i);
      GetStep(p, env, values, id, st, a, i);
    }
  }

  // ------------------------------------------- runs in which writes may fail

  /** The state a run ends in, as tracked abstractly. */
  ghost function TrackRun(p: Primitives, env: Environment, st: State, a: AState, ops: seq<Op>): AState
    requires Shuffles(env)
    decreases |ops|
  {
    if ops == [] || Step(p, env, st, ops[0]).1.Halted? then a
    else TrackRun(p, env, Step(p, env, st, ops[0]).0, TrackStep(p, env, st, a, ops[0]), ops[1..])
  }

  /** The files and memory a run leaves, also when the process has stopped. */
  ghost predicate LeftBehind(p: Primitives, env: Environment, values: set<Bytes>, st: State, a: AState, ops: seq<Op>)
    requires Shuffles(env)
  {
    var (st', replies) := Run(p, env, st, ops);
    var a' := TrackRun(p, env, st, a, ops);
    if Halted in replies then RefinesHalted(p, values, st', a') else Refines(p, values, st', a')
  }

  lemma {:induction false} RunsLeaveTheMapBehind(p: Primitives, env: Environment, values: set<Bytes>, st: State,
                                                 a: AState, ops: seq<Op>)
    requires World(p, env) && CollisionFree(p, values) && Refines(p, values, st, a)
    requires RunAdmissible(p, env, values, st, a, ops)
    ensures LeftBehind(p, env, values, st, a, ops)
    decreases |ops|
  {
    hide Step, Lawful, Refines, RefinesHalted, CollisionFree, Acceptable, NeedsRecoveryHash;
    if ops != [] {
      StepRefines(p, env, values, st, a, ops[0]);
      var (st1, reply) := Step(p, env, st, ops[0]);
      if reply.Halted? {
        assert Run(p, env, st, ops).1[0] == Halted;
      } else {
        RunsLeaveTheMapBehind(p, env, values, st1, TrackStep(p, env, st, a, ops[0]), ops[1..]);
        var rest := Run(p, env, st1, ops[1..]).1;
        assert Halted in [reply] + rest <==> Halted in rest;
      }
    }
  }

  lemma {:induction false} UntouchedByRun(p: Primitives, env: Environment, st: State, a: AState, ops: seq<Op>, i: Uuid)
    requires Shuffles(env) && i in a.entries && forall op :: op in ops ==> !Touches(op, i)
    ensures var a' := TrackRun(p, env, st, a, ops);
      && i in a'.entries
      && a'.entries[i].value == a.entries[i].value
      && a'.entries[i].description == a.entries[i].description
      && (i in a'.torn <==> i in a.torn)
    decreases |ops|
  {
    hide Step, Track;
    if ops != [] && !Step(p, env, st, ops[0]).1.Halted? {
      assert ops[0] in ops;
      var (st1, reply) := Step(p, env, st, ops[0]);
      UntouchedByStep(p, env, a, ops[0], reply, st.store.tick, st1.store.tick, i);
      forall op | op in ops[1..] ensures !Touches(op, i) { assert op in ops; }
      UntouchedByRun(p, env, st1, TrackStep(p, env, st, a, ops[0]), ops[1..], i);
    }
  }

  /** Whatever writes fail, an item that no operation of the run sets, deletes or creates
      is read as before and keeps its description: through changes of the recovery
      recipient that are done or rolled back, through peer reads, and through locking and
      unlocking. */
  lemma UntouchedItemsStay(p: Primitives, env: Environment, values: set<Bytes>, st: State, a: AState, ops: seq<Op>,
                           i: Uuid)
    requires World(p, env) && CollisionFree(p, values) && Refines(p, values, st, a)
    requires RunAdmissible(p, env, values, st, a, ops)
    requires i in ItemsOf(st.mem) && forall op :: op in ops ==> !Touches(op, i)
    ensures var (st', replies) := Run(p, env, st, ops);
      Halted !in replies && st'.mem.identityKey.Some? ==>
        && GetItem(p, st', i) == GetItem(p, st, i)
        && i in ItemsOf(st'.mem)
        && ItemsOf(st'.mem)[i].description == ItemsOf(st.mem)[i].description
  {
    hide Lawful, NeedsRecoveryHash, CollisionFree, GetItem, Run, TrackRun, RunAdmissible, Coherent, AllSealed;
    var id :| RefinesFor(p, values, id, st, a);
    MemoryWhenOpen(p, values, id, st, a);
    ItemsInMemory(p, values, id, st, a);
    IdealGet(p, env, values, st, a, i);
    RunsLeaveTheMapBehind(p, env, values, st, a, ops);
    UntouchedByRun(p, env, st, a, ops, i);
    if Halted !in Run(p, env, st, ops).1 {
      IdealGet(p, env, values, Run(p, env, st, ops).0, TrackRun(p, env, st, a, ops), i);
    }
  }

  /** Once setting a value has been acknowledged, every later read in the open vault gives
      it, whatever is asked in between of other items, and whatever writes fail. */
  lemma AcknowledgedValueIsRead(p: Primitives, env: Environment, values: set<Bytes>, st: State, a: AState,
                                i: Uuid, value: Bytes, between: seq<Op>)
    requires World(p, env) && CollisionFree(p, values) && Refines(p, values, st, a)
    requires RunAdmissible(p, env, values, st, a, [Set(i, value)] + between)
    requires forall op :: op in between ==> !Touches(op, i)
    requires SetItemValue(p, env, st, i, value).1 == Done
    ensures var (st', replies) := Run(p, env, SetItemValue(p, env, st, i, value).0, between);
      Halted !in replies && st'.mem.identityKey.Some? ==> GetItem(p, st', i) == Got(Some(value))
  {
    hide Lawful, NeedsRecoveryHash, SetItemValue, Refines, RefinesHalted, CollisionFree, GetItem, Clean;
    var ops := [Set(i, value)] + between;
    assert ops[1..] == between;
    assert Step(p, env, st, Set(i, value)) == SetItemValue(p, env, st, i, value);
    StepRefines(p, env, values, st, a, Set(i, value));
    var st1, a1 := SetItemValue(p, env, st, i, value).0, TrackStep(p, env, st, a, Set(i, value));
    RunsLeaveTheMapBehind(p, env, values, st1, a1, between);
    UntouchedByRun(p, env, st1, a1, between, i);
    if Halted !in Run(p, env, st1, between).1 {
      IdealGet(p, env, values, Run(p, env, st1, between).0, TrackRun(p, env, st1, a1, between), i);
    }
  }

  /** An item can become unreadable in one way only: an attempt to set it failed. */
  lemma {:induction false} OnlyFailedSetsTear(p: Primitives, env: Environment, values: set<Bytes>, st: State, a: AState,
                                              ops: seq<Op>, i: Uuid)
    requires World(p, env) && CollisionFree(p, values) && Refines(p, values, st, a)
    requires RunAdmissible(p, env, values, st, a, ops)
    requires i !in a.torn && i in TrackRun(p, env, st, a, ops).torn
    ensures var replies := Run(p, env, st, ops).1;
      exists k :: 0 <= k < |replies| <= |ops| && ops[k].Set? && ops[k].id == i && replies[k] == Failed
    decreases |ops|
  {
    hide Step, Lawful, Refines, CollisionFree, NeedsRecoveryHash, Clean;
    StepRefines(p, env, values, st, a, ops[0]);
    var (st1, reply) := Step(p, env, st, ops[0]);
    var a1 := TrackStep(p, env, st, a, ops[0]);
    var rest := Run(p, env, st1, ops[1..]).1;
    AsManyReplies(p, env, st1, ops[1..]);
    assert Run(p, env, st, ops).1 == [reply] + rest;
    if i in a1.torn {
      assert ops[0].Set? && ops[0].id == i && ([reply] + rest)[0] == Failed;
    } else {
      OnlyFailedSetsTear(p, env, values, st1, a1, ops[1..], i);
      var k :| 0 <= k < |rest| && ops[1..][k].Set? && ops[1..][k].id == i && rest[k] == Failed;
      assert ops[k + 1] == ops[1..][k] && ([reply] + rest)[k + 1] == rest[k];
    }
  }

  /** At the end of a run in which no attempt to set it has failed, an item that could be
      read before is read, or has no value, as the abstract map says. */
  lemma RefusedOnlyAfterFailedSet(p: Primitives, env: Environment, values: set<Bytes>, st: State, a: AState,
                                  ops: seq<Op>, i: Uuid)
    requires World(p, env) && CollisionFree(p, values) && Refines(p, values, st, a)
    requires RunAdmissible(p, env, values, st, a, ops)
    requires i !in a.torn && Halted !in Run(p, env, st, ops).1
    ensures var (st', replies) := Run(p, env, st, ops);
      var a' := TrackRun(p, env, st, a, ops);
      st'.mem.identityKey.Some? && i in a'.entries && GetItem(p, st', i) != Got(a'.entries[i].value) ==>
        exists k :: 0 <= k < |replies| <= |ops| && ops[k].Set? && ops[k].id == i && replies[k] == Failed
  {
    hide Lawful, NeedsRecoveryHash, Refines, CollisionFree, GetItem, Run, TrackRun, RunAdmissible;
    RunsLeaveTheMapBehind(p, env, values, st, a, ops);
    var st', a' := Run(p, env, st, ops).0, TrackRun(p, env, st, a, ops);
    if i in a'.torn {
      OnlyFailedSetsTear(p, env, values, st, a, ops, i);
    } else if i in a'.entries {
      IdealGet(p, env, values, st', a', i);
    }
  }

  lemma {:induction false} AsManyReplies(p: Primitives, env: Environment, st: State, ops: seq<Op>)
    requires Shuffles(env)
    ensures |Run(p, env, st, ops).1| <= |ops|
    decreases |ops|
  {
    hide Step;
    if ops != [] && !Step(p, env, st, ops[0]).1.Halted? {
      AsManyReplies(p, env, Step(p, env, st, ops[0]).0, ops[1..]);
    }
  }

  // ------------------------------------------------------------ peer pinning

  ghost predicate Pinned(a: AState, i: Uuid, peer: string) {
    i in a.entries && a.entries[i].peer == Some(peer)
  }

  /** The metadata file of the item, checked with the secret of the identity the key
      opens, names the peer. */
  ghost predicate PeerOnFile(p: Primitives, files: Files, key: Bytes, i: Uuid, peer: string) {
    var o := ReadIdentity(p, files, key);
    o.Return? &&
    var item := Find(Index(p, HmacSecret(p, o.value), files), i);
    item.Some? && item.value.peer == Some(peer)
  }

  /** Once recorded, an item's peer survives every operation but the item's deletion,
      whatever writes fail: value changes, re-encryption, locking and unlocking. The files
      say so at the end of the run, also when the process has stopped. */
  lemma {:induction false} PinnedPeerStays(p: Primitives, env: Environment, values: set<Bytes>, st: State, a: AState,
                                           ops: seq<Op>, i: Uuid, peer: string)
    requires World(p, env) && CollisionFree(p, values) && Refines(p, values, st, a)
    requires RunAdmissible(p, env, values, st, a, ops)
    requires Pinned(a, i, peer) && Delete(i) !in ops
    ensures Pinned(TrackRun(p, env, st, a, ops), i, peer)
    ensures LeftBehind(p, env, values, st, a, ops)
    ensures a.key.Some? && PeerOnFile(p, Run(p, env, st, ops).0.store.files, a.key.value, i, peer)
  {
    hide Lawful, Step, Run, TrackRun, CollisionFree, RunAdmissible, Index, HmacSecret, NeedsRecoveryHash, Coherent,
      PeerOnFile;
    PinIsTracked(p, env, values, st, a, ops, i, peer);
    RunsLeaveTheMapBehind(p, env, values, st, a, ops);
    var (st', replies) := Run(p, env, st, ops);
    var a' := TrackRun(p, env, st, a, ops);
    if Halted in replies {
      var rec :| Refines(p, values, st', a'.(recovery := rec, outdated := a'.entries.Keys));
      PinIsOnFile(p, values, st', a'.(recovery := rec, outdated := a'.entries.Keys), i, peer);
    } else {
      PinIsOnFile(p, values, st', a', i, peer);
    }
  }

  lemma PinIsOnFile(p: Primitives, values: set<Bytes>, st: State, a: AState, i: Uuid, peer: string)
    requires Refines(p, values, st, a) && Pinned(a, i, peer)
    ensures a.key.Some? && PeerOnFile(p, st.store.files, a.key.value, i, peer)
  {
    hide Index, HmacSecret, ReadIdentity, LoadRecovery, ValuesOk, AllSealed;
    var id :| RefinesFor(p, values, id, st, a);
    IndexedItem(p, values, id, st, a, i);
  }

  lemma {:induction false} PinIsTracked(p: Primitives, env: Environment, values: set<Bytes>, st: State, a: AState,
                                        ops: seq<Op>, i: Uuid, peer: string)
    requires World(p, env) && RunAdmissible(p, env, values, st, a, ops)
    requires Pinned(a, i, peer) && Delete(i) !in ops
    ensures Pinned(TrackRun(p, env, st, a, ops), i, peer)
    ensures a.key.Some? ==> TrackRun(p, env, st, a, ops).key == a.key
    decreases |ops|
  {
    hide Step, Lawful, Clean, NeedsRecoveryHash;
    if ops != [] && !Step(p, env, st, ops[0]).1.Halted? {
      assert ops[0] in ops;
      PinIsTracked(p, env, values, Step(p, env, st, ops[0]).0, TrackStep(p, env, st, a, ops[0]), ops[1..], i, peer);
    }
  }

  /** A read by anyone but the recorded peer fails and changes nothing at all. */
  lemma ForeignPeerIsRefused(p: Primitives, env: Environment, values: set<Bytes>, st: State, a: AState,
                             i: Uuid, peer: string, other: string)
    requires World(p, env) && Refines(p, values, st, a) && Pinned(a, i, peer) && other != peer
    ensures GetItemForPeer(p, env, st, i, other) == (st, Failed)
  {
    hide Lawful, Index, BaseOk, ValuesOk, HmacSecret;
    var id :| RefinesFor(p, values, id, st, a);
    ItemsInMemory(p, values, id, st, a);
    if a.open {
      IndexedItem(p, values, id, st, a, i);
    }
  }

  /** A successful first read records the peer in the file and in the index. */
  lemma FirstReadPins(p: Primitives, env: Environment, values: set<Bytes>, st: State, a: AState, i: Uuid, peer: string)
    requires World(p, env) && Refines(p, values, st, a)
    requires CollisionFree(p, values) || a.torn == map[]
    requires GetItemForPeer(p, env, st, i, peer).1.Got?
    ensures var st' := GetItemForPeer(p, env, st, i, peer).0;
      && st'.mem.secret.Some? && i in ItemsOf(st'.mem)
      && ItemsOf(st'.mem)[i].peer == Some(peer)
      && Find(Index(p, st'.mem.secret.value, st'.store.files), i) == Some(ItemsOf(st'.mem)[i])
  {
    hide Lawful, Index, BaseOk, ValuesOk, HmacSecret, GetItemForPeer, CollisionFree;
    if a.key.None? {
      assert GetItemForPeer(p, env, st, i, peer) == Step(p, env, st, GetForPeer(i, peer));
      StepRefines(p, env, values, st, a, GetForPeer(i, peer));
    } else {
      var id :| RefinesFor(p, values, id, st, a);
      GetForPeerStep(p, env, values, id, st, a, i, peer);
      var (st', reply) := GetItemForPeer(p, env, st, i, peer);
      var a' := Track(p, env, a, GetForPeer(i, peer), reply, st.store.tick, st'.store.tick);
      IndexedItem(p, values, id, st', a', i);
      ItemsInMemory(p, values, id, st', a');
    }
  }

  // ------------------------------------------------------------ failing writes

  /** Reading item `i` after the process has ended and the vault is unlocked anew. */
  function ReadAfterRestart(p: Primitives, env: Environment, store: Store, passphrase: Bytes, i: Uuid): Reply {
    GetItem(p, UnlockVault(p, env, State(store, Locked), passphrase).0, i)
  }

  /** Wherever the writing of a value is cut off, by a failing write or by the end of the
      process, a later read gives the old value, the new value or an error. It gives
      "no value" only if there was none, and the new value only if it was acknowledged.
      It gives an error, for an item that could be read before, exactly if the new value
      differs and only the last write, that of the metadata, failed. The previous
      ciphertext is still in the value file or in the backup copy. */
  lemma ValueWriteIsSafeAtEveryCut(p: Primitives, env: Environment, values: set<Bytes>, id: Identity, st: State,
                                   a: AState, i: Uuid, value: Bytes, env': Environment, passphrase: Bytes)
    requires World(p, env) && CollisionFree(p, values) && RefinesFor(p, values, id, st, a)
    requires a.open && i in a.entries && value in values && value != []
    requires World(p, env') && Reliable(env') && KeyOf(p, env', passphrase) == a.key.value
    ensures var (st', reply) := SetItemValue(p, env, st, i, value);
      var (t, previous) := (st.store.tick, a.entries[i].value);
      var late := ReadAfterRestart(p, env', st'.store, passphrase, i);
      && (reply == Done ==> late == Got(Some(value)))
      && (reply != Done ==> late == Got(previous) || (previous.Some? && late == Failed))
      && (i !in a.torn ==> (late == Failed <==>
            && previous.Some? && previous != Some(value)
            && !env.writeFails(t) && !env.writeFails(t + 1) && env.writeFails(t + 2)))
      && GetItem(p, st', i) == late
      && (previous.Some? ==>
            var sealed := Find(st.store.files, ValueFile(i));
            sealed.Some? && (Find(st'.store.files, ValueFile(i)) == sealed ||
                             exists stamp :: Find(st'.store.files, BackupFile(i, stamp)) == sealed))
  {
    hide Lawful, Index, HmacSecret, CollisionFree, WriteItemValue, Coherent, AllSealed, ReadItemValue,
      UnlockVault, NeedsRecoveryHash, KeyOf, GetItem;
    ItemsInMemory(p, values, id, st, a);
    MemoryWhenOpen(p, values, id, st, a);
    WriteValueStep(p, env, values, id, st, a, i, value);
    var (st', reply) := SetItemValue(p, env, st, i, value);
    var a' := AfterSet(env, a, i, value, st.store.tick, st'.store.tick);
    RestartIsNotNoticed(p, env', values, id, st', a', passphrase, i);
    GetStep(p, env, values, id, st', a', i);
    if a.entries[i].value.Some? {
      IndexedItem(p, values, id, st, a, i);
      ChecksumSaysWhetherSet(p, values, id, st, a, i);
      ValueFileExists(p, values, id, st, a, i);
      PreviousValueIsKept(p, env, st, ItemsOf(st.mem)[i], value);
      LastWriteFails(p, env, st, ItemsOf(st.mem)[i], value);
    }
  }

  lemma ValueFileExists(p: Primitives, values: set<Bytes>, id: Identity, st: State, a: AState, i: Uuid)
    requires Coherent(p, values, id, st, a) && i in a.entries && a.entries[i].value.Some?
    ensures ValueFile(i) in st.store.files
  {
    hide Index, BaseOk, IndexOk, HmacSecret;
    assert Holds(p, id, st.store.files, i, Stored(a, i));
  }

  /** Writing a value stops at the first write that fails. */
  lemma LastWriteFails(p: Primitives, env: Environment, st: State, item: Item, value: Bytes)
    requires item.checksum != [] && ValueFile(item.id) in st.store.files
    requires !WriteItemValue(p, env, st, item, value).1.Halt?
    ensures var (t, until) := (st.store.tick, WriteItemValue(p, env, st, item, value).0.store.tick);
      && (until == t + 3 <==> !env.writeFails(t) && !env.writeFails(t + 1))
      && (until == t + 3 ==> (Clean(env, t, until) <==> !env.writeFails(t + 2)))
  {
    hide EncryptForRest, Frame, Sum;
  }

  /** Whatever writes failed before, a restart makes no difference to reading. */
  lemma RestartIsNotNoticed(p: Primitives, env: Environment, values: set<Bytes>, id: Identity, st: State, a: AState,
                            passphrase: Bytes, i: Uuid)
    requires World(p, env) && Reliable(env) && Coherent(p, values, id, st, a) && a.open
    requires KeyOf(p, env, passphrase) == a.key.value
    ensures ReadAfterRestart(p, env, st.store, passphrase, i) == GetItem(p, st, i)
  {
    hide Lawful, Index, HmacSecret, BaseOk, SealedFor, Matches, NeedsRecoveryHash, KeyOf, UnlockVault, ReadIdentity;
    var closed := State(st.store, Locked);
    var a0 := a.(open := false, outdated := a.entries.Keys);
    UnlockStep(p, env, values, id, closed, a0, passphrase);
    var st1 := UnlockVault(p, env, closed, passphrase).0;
    OnlyVersionChanges(p, env, id, a, closed, passphrase);
    SameIndex(p, HmacSecret(p, id), st.store.files, st1.store.files);
    forall k ensures ReadIdentity(p, st1.store.files, k) == ReadIdentity(p, st.store.files, k) {
      SameIdentity(p, st.store.files, st1.store.files, k);
    }
    assert Find(st1.store.files, ValueFile(i)) == Find(st.store.files, ValueFile(i));
    if i in a.entries {
      IndexedItem(p, values, id, st, a, i);
    }
  }

  lemma SameIdentity(p: Primitives, files: Files, files': Files, key: Bytes)
    requires Find(files', IdentityFile) == Find(files, IdentityFile)
    ensures ReadIdentity(p, files', key) == ReadIdentity(p, files, key)
  {
  }

  lemma OnlyVersionChanges(p: Primitives, env: Environment, id: Identity, a: AState, st: State, passphrase: Bytes)
    requires a.key.Some? && BaseOk(p, id, a.key.value, a.recovery, st.store.files)
    ensures forall name :: name != VersionFile ==>
      Find(UnlockVault(p, env, st, passphrase).0.store.files, name) == Find(st.store.files, name)
  {
    hide Readable, Index, ReadIdentity, KeyOf, NeedsRecoveryHash;
  }

  lemma ChecksumSaysWhetherSet(p: Primitives, values: set<Bytes>, id: Identity, st: State, a: AState, i: Uuid)
    requires Lawful(p) && Coherent(p, values, id, st, a) && i in a.entries
    ensures i in Index(p, HmacSecret(p, id), st.store.files)
    ensures Index(p, HmacSecret(p, id), st.store.files)[i].checksum == [] <==> a.entries[i].value.None?
  {
    hide Index, BaseOk, HmacSecret, ValuesOk, IndexOk, Lawful;
    IndexedItem(p, values, id, st, a, i);
    if a.entries[i].value.Some? { SumIsNotEmpty(p, a.entries[i].value.value); }
  }

  /** The previous ciphertext survives every cut, for any vault state whatever. */
  lemma PreviousValueIsKept(p: Primitives, env: Environment, st: State, item: Item, value: Bytes)
    requires item.checksum != [] && ValueFile(item.id) in st.store.files
    ensures var files' := WriteItemValue(p, env, st, item, value).0.store.files;
      var sealed := Find(st.store.files, ValueFile(item.id));
      || Find(files', ValueFile(item.id)) == sealed
      || exists stamp :: Find(files', BackupFile(item.id, stamp)) == sealed
  {
    hide EncryptForRest, Frame, Sum;
    var files' := WriteItemValue(p, env, st, item, value).0.store.files;
    if Find(files', ValueFile(item.id)) != Find(st.store.files, ValueFile(item.id)) {
      assert Find(files', BackupFile(item.id, env.stamp(st.store.tick))) == Find(st.store.files, ValueFile(item.id));
    }
  }
}
