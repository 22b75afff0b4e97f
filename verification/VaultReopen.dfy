/** Opening the vault again, for a store of any version. A store at or below 0.2.0, such
    as the development version, takes each unlock for the first one after an upgrade and
    refuses to go on once a recovery hash exists. */
module VaultReopen {
  import opened Wrappers
  import opened Crypto
  import opened Metadata
  import opened Names
  import opened Versions
  import opened VaultModel
  import opened VaultRefinement
  import opened VaultRuns
  import opened VaultTheorems

  /** What later unlocks depend on, also after an unlock that failed half-way. */
  ghost predicate Reopenable(p: Primitives, env: Environment, id: Identity, key: Bytes, st: State) {
    var files := st.store.files;
    && IdentityFile in files
    && ReadIdentity(p, files, key) == Return(id)
    && (forall k :: k != key ==> ReadIdentity(p, files, k) == Fail)
    && Find(files, VersionFile) == Some(p.showVersion(env.storeVersion))
    && Readable(files)
    && (RecoveryFile in files <==> RecoverySumFile in files)
    && LoadRecovery(p, HmacSecret(p, id), files).Ok?
    && (st.mem.identityKey.None? ==> st.mem == Locked)
    && (st.mem.identityKey.Some? ==>
          && st.mem.identityKey == Some(key)
          && st.mem.secret == Some(HmacSecret(p, id))
          && st.mem.primary == Some(p.recipientOf(id)))
  }

  /** Nothing but the files and the index entries of items has changed. */
  ghost predicate OnlyItemsDiffer(st: State, st': State) {
    && (forall name :: !IsItemFile(name) ==> Find(st'.store.files, name) == Find(st.store.files, name))
    && (Readable(st.store.files) ==> Readable(st'.store.files))
    && st'.mem.(items := st.mem.items) == st.mem
    && (st.mem.items.None? ==> st'.mem.items.None?)
  }

  lemma StaysReopenable(p: Primitives, env: Environment, id: Identity, key: Bytes, st: State, st': State)
    requires Reopenable(p, env, id, key, st) && OnlyItemsDiffer(st, st')
    ensures Reopenable(p, env, id, key, st')
    ensures RecoveryFile in st'.store.files <==> RecoveryFile in st.store.files
  {
    hide HmacSecret, Readable;
    forall name | !IsItemFile(name) ensures Find(st'.store.files, name) == Find(st.store.files, name) {}
    assert Find(st'.store.files, RecoveryFile) == Find(st.store.files, RecoveryFile);
    assert Find(st'.store.files, RecoverySumFile) == Find(st.store.files, RecoverySumFile);
    forall k ensures ReadIdentity(p, st'.store.files, k) == ReadIdentity(p, st.store.files, k) {
      SameIdentity(p, st.store.files, st'.store.files, k);
    }
  }

  lemma WriteTouchesItems(env: Environment, st: State, name: Name, data: Bytes)
    requires IsItemFile(name) && (IsMetadataName(name) ==> |data| >= 32)
    ensures OnlyItemsDiffer(st, st.(store := WriteFile(env, st.store, name, data).0))
  {
  }

  lemma TouchesItemsTwice(st: State, st1: State, st2: State)
    requires OnlyItemsDiffer(st, st1) && OnlyItemsDiffer(st1, st2)
    ensures OnlyItemsDiffer(st, st2)
  {
    hide Readable, IsItemFile;
    forall name | !IsItemFile(name) ensures Find(st2.store.files, name) == Find(st.store.files, name) {
      assert Find(st1.store.files, name) == Find(st.store.files, name);
    }
  }

  lemma MetadataTouchesItems(p: Primitives, env: Environment, st: State, item: Item, secret: Bytes)
    requires Lawful(p)
    ensures OnlyItemsDiffer(st, st.(store := WriteMetadata(p, env, st.store, item, secret).0))
  {
    hide Lawful, Frame;
    FrameRoundTrip(p, secret, item);
    WriteTouchesItems(env, st, MetadataFile(item.id), Frame(p, secret, item));
  }

  lemma WriteValueTouchesItems(p: Primitives, env: Environment, st: State, item: Item, value: Bytes)
    requires Lawful(p)
    ensures OnlyItemsDiffer(st, WriteItemValue(p, env, st, item, value).0)
  {
    hide Lawful, Sum, EncryptForRest, OnlyItemsDiffer, WriteMetadata, WriteFile;
    NothingDiffers(st);
    var sealed := EncryptForRest(p, env, st, value);
    NoSecretNoSeal(p, env, st, value);
    if sealed.Some? {
      var (s1, kept) := if item.checksum != [] then BackUpValue(env, st.store, item.id) else (st.store, true);
      var st1 := st.(store := s1);
      if item.checksum != [] && ValueFile(item.id) in st.store.files {
        WriteTouchesItems(env, st, BackupFile(item.id, env.stamp(st.store.tick)), st.store.files[ValueFile(item.id)]);
      }
      assert OnlyItemsDiffer(st, st1) by { if s1 == st.store { assert st1 == st; } }
      WriteTouchesItems(env, st1, ValueFile(item.id), sealed.value);
      var st2 := st1.(store := WriteFile(env, s1, ValueFile(item.id), sealed.value).0);
      TouchesItemsTwice(st, st1, st2);
      var item' := item.(checksum := Sum(p, value), modifiedAt := env.now(s1.tick));
      MetadataTouchesItems(p, env, st2, item', st.mem.secret.value);
      var st3 := st2.(store := WriteMetadata(p, env, st2.store, item', st.mem.secret.value).0);
      TouchesItemsTwice(st, st2, st3);
      if st3.mem.items.Some? {
        IndexMayDiffer(st, st3, st3.mem.items.value[item.id := item']);
      }
    }
  }

  lemma NothingDiffers(st: State)
    ensures OnlyItemsDiffer(st, st)
  {
  }

  lemma IndexMayDiffer(st: State, st': State, items: map<Uuid, Item>)
    requires OnlyItemsDiffer(st, st') && st'.mem.items.Some?
    ensures OnlyItemsDiffer(st, st'.(mem := st'.mem.(items := Some(items))))
  {
  }

  lemma NoSecretNoSeal(p: Primitives, env: Environment, st: State, value: Bytes)
    ensures st.mem.secret.None? ==> EncryptForRest(p, env, st, value).None?
  {
  }

  lemma VerifyPeerTouchesItems(p: Primitives, env: Environment, st: State, item: Item, peer: string)
    requires Lawful(p)
    ensures OnlyItemsDiffer(st, VerifyPeer(p, env, st, item, peer).0)
  {
    hide Lawful, Frame, WriteMetadata;
    if st.mem.secret.Some? {
      MetadataTouchesItems(p, env, st, item.(peer := Some(peer)), st.mem.secret.value);
    }
  }

  lemma {:induction false} ReencryptTouchesItems(p: Primitives, env: Environment, st: State, items: map<Uuid, Item>,
                                                 order: seq<Uuid>)
    requires Lawful(p) && forall i :: i in order ==> i in items
    ensures OnlyItemsDiffer(st, ReencryptAll(p, env, st, items, order).0)
    decreases |order|
  {
    hide Lawful, ReadItemValue, WriteItemValue, Readable;
    if order != [] {
      var item := items[order[0]];
      var o := ReadItemValue(p, st, item);
      if o.Return? {
        WriteValueTouchesItems(p, env, st, item, o.value);
      }
      var (st1, going) := ReencryptItem(p, env, st, item);
      assert OnlyItemsDiffer(st, st1);
      if going {
        ReencryptTouchesItems(p, env, st1, items, order[1..]);
        var st' := ReencryptAll(p, env, st1, items, order[1..]).0;
        forall name | !IsItemFile(name) ensures Find(st'.store.files, name) == Find(st.store.files, name) {
          assert Find(st1.store.files, name) == Find(st.store.files, name);
        }
      }
    }
  }

  /** Operations on items leave everything else alone. */
  lemma ItemOpsTouchItems(p: Primitives, env: Environment, st: State, op: Op)
    requires Lawful(p) && Shuffles(env) && !op.Unlock? && !op.Lock? && !op.SetRecovery?
    ensures OnlyItemsDiffer(st, Step(p, env, st, op).0)
  {
    hide Lawful, VerifyPeer, WriteItemValue, ReadItemValue, WriteMetadata, Frame;
    match op {
      case Create(description, id) =>
        if st.mem.secret.Some? {
          var item := Item(id, description, None, [], env.now(st.store.tick));
          MetadataTouchesItems(p, env, st, item, st.mem.secret.value);
        }
      case Delete(id) =>
      case Get(id) =>
      case GetForPeer(id, peer) =>
        if id in ItemsOf(st.mem) { VerifyPeerTouchesItems(p, env, st, ItemsOf(st.mem)[id], peer); }
      case Set(id, value) =>
        if id in ItemsOf(st.mem) { WriteValueTouchesItems(p, env, st, ItemsOf(st.mem)[id], value); }
    }
  }

  /** On a working backend the recipient is on record and the values are written anew. */
  lemma SetRecoveryKeepsReopenable(p: Primitives, env: Environment, id: Identity, key: Bytes, st: State, r: Recipient)
    requires Lawful(p) && Shuffles(env) && Reliable(env) && Reopenable(p, env, id, key, st)
    ensures var (st', reply) := SetRecoveryRecipient(p, env, st, r);
      && Reopenable(p, env, id, key, st')
      && (reply == Failed ==> st' == st)
      && (reply != Failed ==> reply in {Done, Halted} && RecoveryFile in st'.store.files)
  {
    hide HmacSecret, RecoveryHash, ReencryptAll, Index;
    if st.mem.identityKey.Some? {
      var secret := HmacSecret(p, id);
      var s1 := WriteRecovery(p, env, st.store, r, secret).0;
      assert s1.files ==
        st.store.files[RecoveryFile := p.showRecipient(r)][RecoverySumFile := RecoveryHash(p, r, secret)];
      assert p.parseRecipient(p.showRecipient(r)) == Some(r);
      forall k ensures ReadIdentity(p, s1.files, k) == ReadIdentity(p, st.store.files, k) {
        SameIdentity(p, st.store.files, s1.files, k);
      }
      var st1 := st.(store := s1);
      assert Reopenable(p, env, id, key, st1);
      var items := Index(p, secret, s1.files);
      var order := env.shuffle(s1.tick, items.Keys);
      assert Enumerates(order, items.Keys);
      ReencryptTouchesItems(p, env, st1, items, order);
      StaysReopenable(p, env, id, key, st1, ReencryptAll(p, env, st1, items, order).0);
    }
  }

  /** An unlock opens a locked vault exactly with its key, and only if the store is recent
      or has no recovery recipient. */
  lemma UnlockKeepsReopenable(p: Primitives, env: Environment, id: Identity, key: Bytes, st: State, passphrase: Bytes)
    requires Lawful(p) && Reliable(env) && Reopenable(p, env, id, key, st)
    ensures var (st', reply) := UnlockVault(p, env, st, passphrase);
      && Reopenable(p, env, id, key, st')
      && (RecoveryFile in st'.store.files <==> RecoveryFile in st.store.files)
      && (st.mem.identityKey.None? ==>
            (reply == Done <==>
              && KeyOf(p, env, passphrase) == key
              && (!NeedsRecoveryHash(Some(env.storeVersion)) || RecoveryFile !in st.store.files)))
  {
    hide HmacSecret, RecoveryHash, Index, NeedsRecoveryHash, KeyOf;
    assert p.parseVersion(p.showVersion(env.storeVersion)) == Some(env.storeVersion);
    var st' := UnlockVault(p, env, st, passphrase).0;
    assert st'.store.files == st.store.files;
  }

  /** The first unlock of empty storage opens the vault, for a store of any version. */
  lemma FirstUnlockIsReopenable(p: Primitives, env: Environment, passphrase: Bytes)
    requires Lawful(p) && Sound(env) && Reliable(env)
    ensures var (st, reply) := UnlockVault(p, env, EmptyStorage, passphrase);
      && reply == Done
      && Reopenable(p, env, env.newIdentity(0), KeyOf(p, env, passphrase), st)
      && RecoveryFile !in st.store.files
  {
    hide HmacSecret, Index, NeedsRecoveryHash, KeyOf;
    var id, key := env.newIdentity(0), KeyOf(p, env, passphrase);
    var sealed := SealedIdentity(p, key, env.gcmNonce(0), id);
    assert sealed[..12] == env.gcmNonce(0) && sealed[12..] == p.seal(key, env.gcmNonce(0), p.showIdentity(id));
    assert p.parseIdentity(p.showIdentity(id)) == Some(id);
  }

  /** Has a change of the recovery recipient been acknowledged? */
  ghost predicate RecoveryWasSet(ops: seq<Op>, replies: seq<Reply>) {
    exists k :: 0 <= k < |replies| && k < |ops| && ops[k].SetRecovery? && replies[k] == Done
  }

  lemma StepKeepsReopenable(p: Primitives, env: Environment, id: Identity, key: Bytes, st: State, op: Op)
    requires Lawful(p) && Shuffles(env) && Reliable(env) && Reopenable(p, env, id, key, st)
    ensures var (st', reply) := Step(p, env, st, op);
      && Reopenable(p, env, id, key, st')
      && (reply != Halted ==> (RecoveryFile in st'.store.files <==>
            RecoveryFile in st.store.files || (op.SetRecovery? && reply == Done)))
  {
    hide HmacSecret, Lawful, UnlockVault, SetRecoveryRecipient, LoadRecovery, ReadIdentity, Readable;
    match op {
      case Unlock(passphrase) => UnlockKeepsReopenable(p, env, id, key, st, passphrase);
      case Lock =>
      case SetRecovery(r) => SetRecoveryKeepsReopenable(p, env, id, key, st, r);
      case _ =>
        ItemOpsTouchItems(p, env, st, op);
        StaysReopenable(p, env, id, key, st, Step(p, env, st, op).0);
    }
  }

  lemma {:induction false} RunKeepsReopenable(p: Primitives, env: Environment, id: Identity, key: Bytes, st: State,
                                              ops: seq<Op>)
    requires Lawful(p) && Shuffles(env) && Reliable(env) && Reopenable(p, env, id, key, st)
    requires Halted !in Run(p, env, st, ops).1
    ensures var (st', replies) := Run(p, env, st, ops);
      && Reopenable(p, env, id, key, st')
      && (RecoveryFile in st'.store.files <==> RecoveryFile in st.store.files || RecoveryWasSet(ops, replies))
    decreases |ops|
  {
    hide Lawful, Step, Reopenable;
    if ops != [] {
      StepKeepsReopenable(p, env, id, key, st, ops[0]);
      var (st1, reply) := Step(p, env, st, ops[0]);
      var (st', replies) := Run(p, env, st, ops);
      assert replies[0] == reply;
      var rest := Run(p, env, st1, ops[1..]).1;
      forall r | r in rest ensures r != Halted { assert r in replies; }
      RunKeepsReopenable(p, env, id, key, st1, ops[1..]);
      if RecoveryWasSet(ops[1..], rest) {
        var k :| 0 <= k < |rest| && k < |ops[1..]| && ops[1..][k].SetRecovery? && rest[k] == Done;
        assert ops[k + 1].SetRecovery? && replies[k + 1] == Done;
      }
      if RecoveryWasSet(ops, replies) {
        var k :| 0 <= k < |replies| && k < |ops| && ops[k].SetRecovery? && replies[k] == Done;
        if k > 0 { assert ops[1..][k - 1].SetRecovery? && rest[k - 1] == Done; }
      }
    }
  }

  lemma SetInTail(ops: seq<Op>, replies: seq<Reply>)
    requires ops != [] && replies != [] && !ops[0].SetRecovery?
    ensures RecoveryWasSet(ops, replies) <==> RecoveryWasSet(ops[1..], replies[1..])
  {
    if RecoveryWasSet(ops, replies) {
      var k :| 0 <= k < |replies| && k < |ops| && ops[k].SetRecovery? && replies[k] == Done;
      assert ops[1..][k - 1].SetRecovery? && replies[1..][k - 1] == Done;
    }
    if RecoveryWasSet(ops[1..], replies[1..]) {
      var k :| 0 <= k < |replies[1..]| && k < |ops[1..]| && ops[1..][k].SetRecovery? && replies[1..][k] == Done;
      assert ops[k + 1].SetRecovery? && replies[k + 1] == Done;
    }
  }

  /** From empty storage, after a first unlock and any operations, and for a store of any
      version: a locked vault is opened by exactly the passphrases hashed like the first one,
      and only if the store is above 0.2.0 or no recovery recipient has ever been set. */
  lemma FirstKeyReopens(p: Primitives, env: Environment, first: Bytes, ops: seq<Op>, passphrase: Bytes)
    requires Lawful(p) && Sound(env) && Reliable(env)
    requires Halted !in Run(p, env, EmptyStorage, [Unlock(first)] + ops).1
    ensures var (st, replies) := Run(p, env, EmptyStorage, [Unlock(first)] + ops);
      st.mem.identityKey.None? ==>
        (UnlockVault(p, env, st, passphrase).1 == Done <==>
          && SameKey(p, env, passphrase, first)
          && (!LessEqual(env.storeVersion, BeforeRecoveryVerified) || !RecoveryWasSet([Unlock(first)] + ops, replies)))
  {
    hide Lawful, Reopenable, UnlockVault, KeyOf, SetRecoveryRecipient, LessEqual;
    var all := [Unlock(first)] + ops;
    assert all[1..] == ops;
    FirstUnlockIsReopenable(p, env, first);
    var id, key := env.newIdentity(0), KeyOf(p, env, first);
    var st1 := UnlockVault(p, env, EmptyStorage, first).0;
    var (st, replies) := Run(p, env, EmptyStorage, all);
    var rest := Run(p, env, st1, ops).1;
    assert replies == [Done] + rest;
    forall r | r in rest ensures r != Halted { assert r in replies; }
    RunKeepsReopenable(p, env, id, key, st1, ops);
    SetInTail(all, replies);
    SameKeyIsSameHash(p, env, passphrase, first);
    UnlockKeepsReopenable(p, env, id, key, st, passphrase);
  }
}
