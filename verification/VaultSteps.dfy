/** Each operation of the vault keeps files, memory and abstract entries in step. */
module VaultSteps {
  import opened Wrappers
  import opened Crypto
  import opened Metadata
  import opened Names
  import opened Versions
  import opened VaultModel
  import opened VaultRefinement

  /** An item is read back exactly if it has a value and is not torn. */
  lemma ReadValueStep(p: Primitives, values: set<Bytes>, id: Identity, st: State, a: AState, i: Uuid)
    requires Lawful(p) && Coherent(p, values, id, st, a) && a.open && i in a.entries
    requires CollisionFree(p, values) || i !in a.torn
    ensures i in Index(p, HmacSecret(p, id), st.store.files)
    ensures var e := a.entries[i];
      ReadItemValue(p, st, Index(p, HmacSecret(p, id), st.store.files)[i]) ==
        if e.value.Some? && i !in a.torn then Return(e.value.value) else Fail
  {
    hide Index, Readable, LoadRecovery, CurrentVersion, Sum;
    IndexedItem(p, values, id, st, a, i);
    assert ReadIdentity(p, st.store.files, a.key.value) == Return(id);
    assert Holds(p, id, st.store.files, i, Stored(a, i));
    if Stored(a, i).Some? { SumIsNotEmpty(p, Stored(a, i).value); }
  }

  lemma IndexedItem(p: Primitives, values: set<Bytes>, id: Identity, st: State, a: AState, i: Uuid)
    requires Coherent(p, values, id, st, a) && i in a.entries
    ensures i in Index(p, HmacSecret(p, id), st.store.files)
    ensures var item := Index(p, HmacSecret(p, id), st.store.files)[i];
      item.id == i && Matches(p, item, a.entries[i])
  {
    hide Index, Readable, BaseOk, ValuesOk;
    IndexedUnderOwnId(p, HmacSecret(p, id), st.store.files, i);
  }

  lemma ItemsInMemory(p: Primitives, values: set<Bytes>, id: Identity, st: State, a: AState)
    requires Coherent(p, values, id, st, a)
    ensures ItemsOf(st.mem) == if a.open then Index(p, HmacSecret(p, id), st.store.files) else map[]
    ensures ItemsOf(st.mem).Keys == if a.open then a.entries.Keys else {}
  {
    hide Index, Readable, BaseOk, ValuesOk, HmacSecret;
  }

  lemma MemoryWhenOpen(p: Primitives, values: set<Bytes>, id: Identity, st: State, a: AState)
    requires Coherent(p, values, id, st, a)
    ensures if a.open
            then st.mem.identityKey.Some? && st.mem.secret == Some(HmacSecret(p, id)) && st.mem.items.Some?
            else st.mem == Locked
  {
    hide Index, BaseOk, IndexOk, ValuesOk, HmacSecret;
  }

  lemma AtAnyTime(p: Primitives, values: set<Bytes>, id: Identity, st: State, a: AState, tick: nat)
    requires Coherent(p, values, id, st, a)
    ensures Coherent(p, values, id, st.(store := st.store.(tick := tick)), a)
  {
    hide Index, BaseOk, IndexOk, ValuesOk, HmacSecret;
  }

  /** The copy of the previous value is made, or its write failed. */
  lemma BackUpStep(p: Primitives, env: Environment, values: set<Bytes>, id: Identity, st: State, a: AState, i: Uuid)
    requires Coherent(p, values, id, st, a) && i in a.entries && a.entries[i].value.Some?
    ensures var (s, kept) := BackUpValue(env, st.store, i);
      && s.tick == st.store.tick + 1
      && kept == !env.writeFails(st.store.tick)
      && Coherent(p, values, id, st.(store := s), a)
      && Index(p, HmacSecret(p, id), s.files) == Index(p, HmacSecret(p, id), st.store.files)
      && SameValueFiles(st.store.files, s.files, {})
  {
    hide Index, Readable, BaseOk, IndexOk;
    assert ValueFile(i) in st.store.files;
    var stamp := env.stamp(st.store.tick);
    AfterBackup(p, values, id, st, a, i, stamp, st.store.files[ValueFile(i)], st.store.tick + 1);
  }

  lemma EncryptStep(p: Primitives, env: Environment, values: set<Bytes>, id: Identity, st: State, a: AState,
                    value: Bytes)
    requires Lawful(p) && Coherent(p, values, id, st, a) && a.open
    ensures EncryptForRest(p, env, st, value) ==
            Some(p.encrypt(RecipientsOf(p, id, a), env.entropy(st.store.tick), value))
    ensures p.decrypt(id, EncryptForRest(p, env, st, value).value) == Some(value)
  {
    hide Index, Readable, IndexOk, ValuesOk, HmacSecret, LoadRecovery, ReadIdentity, CurrentVersion;
    assert p.recipientOf(id) in RecipientsOf(p, id, a);
  }

  ghost predicate SameIndexExcept(index: map<Uuid, Item>, index': map<Uuid, Item>, i: Uuid) {
    forall j :: j != i ==> Find(index', j) == Find(index, j)
  }

  /** The value file has been replaced; then the metadata is, too. */
  lemma StoreAndRecord(p: Primitives, values: set<Bytes>, id: Identity, st: State, a: AState, item: Item, value: Bytes,
                       sealed: Bytes, modifiedAt: int, tick: nat)
    requires Lawful(p) && Coherent(p, values, id, st, a) && a.open && item.id in a.entries
    requires Matches(p, item, a.entries[item.id])
    requires p.decrypt(id, sealed) == Some(value) && value in values
    ensures var (i, secret) := (item.id, HmacSecret(p, id));
      var item' := item.(checksum := Sum(p, value), modifiedAt := modifiedAt);
      var stored := st.store.files[ValueFile(i) := sealed];
      var recorded := stored[MetadataFile(i) := Frame(p, secret, item')];
      && Coherent(p, values, id, st.(store := Store(stored, tick)), Tear(a, i, value))
      && Coherent(p, values, id, State(Store(recorded, tick + 1), st.mem.(items := Some(ItemsOf(st.mem)[i := item']))),
                  Record(a, i, value))
      && Index(p, secret, stored) == Index(p, secret, st.store.files)
      && SameIndexExcept(Index(p, secret, st.store.files), Index(p, secret, recorded), i)
      && SameValueFiles(st.store.files, stored, {i}) && SameValueFiles(st.store.files, recorded, {i})
  {
    hide Index, Coherent, Frame, HmacSecret, Lawful, Sum;
    var i, secret := item.id, HmacSecret(p, id);
    var item' := item.(checksum := Sum(p, value), modifiedAt := modifiedAt);
    var stored := st.store.files[ValueFile(i) := sealed];
    AfterValueWrite(p, values, id, st, a, i, sealed, value, tick);
    var e' := a.entries[i].(value := Some(value));
    AfterMetadataWrite(p, values, id, st.(store := Store(stored, tick)), Tear(a, i, value), item', e', tick + 1);
    RecordIsTearAndRewrite(a, i, value);
    IndexAfterMetadataWrite(p, secret, stored, item');
  }

  /** A value write succeeds exactly if none of its writes fails. What it leaves is told
      by `AfterSet`; the value file is either replaced or untouched. */
  lemma WriteValueStep(p: Primitives, env: Environment, values: set<Bytes>, id: Identity, st: State, a: AState,
                       i: Uuid, value: Bytes)
    requires Lawful(p) && Coherent(p, values, id, st, a) && a.open && i in a.entries && value in values
    ensures i in Index(p, HmacSecret(p, id), st.store.files)
    ensures var (st', o) := WriteItemValue(p, env, st, Index(p, HmacSecret(p, id), st.store.files)[i], value);
      var (from, until) := (st.store.tick, st'.store.tick);
      && from < until <= from + WritesOf(a.entries[i])
      && o == (if Clean(env, from, until) then Return(()) else Fail)
      && (Clean(env, from, until) ==> until - from == WritesOf(a.entries[i]))
      && Coherent(p, values, id, st', AfterSet(env, a, i, value, from, until))
      && SameIndexExcept(Index(p, HmacSecret(p, id), st.store.files), Index(p, HmacSecret(p, id), st'.store.files), i)
      && SameValueFiles(st.store.files, st'.store.files, {i})
      && (if until - from == WritesOf(a.entries[i])
          then Sealed(p, RecipientsOf(p, id, a), st'.store.files, i, Some(value))
          else SameValueFiles(st.store.files, st'.store.files, {}))
  {
    hide Index, Coherent, Frame, HmacSecret, EncryptForRest, Recipients, Sum, Lawful, BackUpValue, Tear, Record,
      RecipientsOf;
    var t := st.store.tick;
    IndexedItem(p, values, id, st, a, i);
    MemoryWhenOpen(p, values, id, st, a);
    var item := Index(p, HmacSecret(p, id), st.store.files)[i];
    EncryptStep(p, env, values, id, st, a, value);
    var sealed := p.encrypt(RecipientsOf(p, id, a), env.entropy(t), value);
    if a.entries[i].value.Some? { SumIsNotEmpty(p, a.entries[i].value.value); }
    var (s1, kept) := if item.checksum != [] then BackUpValue(env, st.store, i) else (st.store, true);
    if item.checksum != [] {
      BackUpStep(p, env, values, id, st, a, i);
    } else {
      assert st.(store := s1) == st;
    }
    if kept {
      StoreAndRecord(p, values, id, st.(store := s1), a, item, value, sealed, env.now(s1.tick), s1.tick + 1);
      var stored := s1.files[ValueFile(i) := sealed];
      AtAnyTime(p, values, id, st.(store := s1), a, s1.tick + 1);
      AtAnyTime(p, values, id, st.(store := Store(stored, s1.tick + 1)), Tear(a, i, value), s1.tick + 2);
    }
  }

  lemma RecordIsTearAndRewrite(a: AState, i: Uuid, value: Bytes)
    requires i in a.entries
    ensures Rewrite(Tear(a, i, value), i, a.entries[i].(value := Some(value))) == Record(a, i, value)
  {
  }

  // ------------------------------------------------------- whole operations

  /** Sealed value files stay sealed, where nothing is written. */
  lemma SealedElsewhere(p: Primitives, rs: seq<Recipient>, files: Files, files': Files, a: AState, a': AState,
                        except: set<Uuid>)
    requires AllSealed(p, rs, files, a) && SameValueFiles(files, files', except)
    requires forall j :: j in a'.entries && j !in a'.outdated && j !in except ==>
      j in a.entries && j !in a.outdated && Stored(a', j) == Stored(a, j)
    requires forall j :: j in a'.entries && j !in a'.outdated && j in except ==> Sealed(p, rs, files', j, Stored(a', j))
    ensures AllSealed(p, rs, files', a')
  {
    hide SealedFor;
    forall j | j in a'.entries && j !in a'.outdated ensures Sealed(p, rs, files', j, Stored(a', j)) {
      if j !in except {
        assert Sealed(p, rs, files, j, Stored(a, j));
        assert Find(files', ValueFile(j)) == Find(files, ValueFile(j));
      }
    }
  }

  lemma SetStep(p: Primitives, env: Environment, values: set<Bytes>, id: Identity, st: State, a: AState,
                i: Uuid, value: Bytes)
    requires Lawful(p) && RefinesFor(p, values, id, st, a) && value in values
    ensures var (st', reply) := SetItemValue(p, env, st, i, value);
      var (from, until) := (st.store.tick, st'.store.tick);
      && Acceptable(p, env, a, Set(i, value), reply, from, until)
      && (a.open && i in a.entries && value != [] ==>
            (reply == Done <==> Clean(env, from, from + WritesOf(a.entries[i]))))
      && RefinesFor(p, values, id, st', Track(p, env, a, Set(i, value), reply, from, until))
  {
    hide Index, Readable, HmacSecret, Coherent, Lawful, WriteItemValue, Sealed, AllSealed;
    ItemsInMemory(p, values, id, st, a);
    MemoryWhenOpen(p, values, id, st, a);
    if a.open && i in a.entries && value != [] {
      WriteValueStep(p, env, values, id, st, a, i, value);
      var st' := SetItemValue(p, env, st, i, value).0;
      var from, until := st.store.tick, st'.store.tick;
      var a' := AfterSet(env, a, i, value, from, until);
      AfterSetTouchesOne(env, a, i, value, from, until);
      SealedElsewhere(p, RecipientsOf(p, id, a), st.store.files, st'.store.files, a, a',
                      if until - from == WritesOf(a.entries[i]) then {i} else {});
    }
  }

  /** Only the item itself changes, and only if its value file was replaced. */
  lemma AfterSetTouchesOne(env: Environment, a: AState, i: Uuid, value: Bytes, from: nat, until: nat)
    requires i in a.entries && until > from
    requires Clean(env, from, until) ==> until - from == WritesOf(a.entries[i])
    ensures var a' := AfterSet(env, a, i, value, from, until);
      && a'.entries.Keys == a.entries.Keys && a'.outdated <= a.outdated
      && a'.recovery == a.recovery && a'.open == a.open && a'.key == a.key
      && (forall j :: j in a.entries && j != i ==>
            a'.entries[j] == a.entries[j] && Stored(a', j) == Stored(a, j) && (j in a'.outdated <==> j in a.outdated))
      && (if until - from == WritesOf(a.entries[i]) then Stored(a', i) == Some(value) else a' == a)
  {
    hide Clean;
  }

  lemma CreateStep(p: Primitives, env: Environment, values: set<Bytes>, id: Identity, st: State, a: AState,
                   description: string, i: Uuid)
    requires Lawful(p) && RefinesFor(p, values, id, st, a) && i !in a.entries
    ensures var (st', reply) := CreateItem(p, env, st, description, i);
      var (from, until) := (st.store.tick, st'.store.tick);
      && Acceptable(p, env, a, Create(description, i), reply, from, until)
      && (a.open ==> until == from + 1 && reply == if env.writeFails(from) then Failed else Done)
      && RefinesFor(p, values, id, st', Track(p, env, a, Create(description, i), reply, from, until))
  {
    hide Index, Readable, BaseOk, HmacSecret, IndexOk, Lawful, Frame, AllSealed;
    ItemsInMemory(p, values, id, st, a);
    if a.open {
      var item := Item(i, description, None, [], env.now(st.store.tick));
      AfterMetadataWrite(p, values, id, st, a, item, Entry(description, None, None), st.store.tick + 1);
      var (st', reply) := CreateItem(p, env, st, description, i);
      if reply == Done {
        var a' := Ideal(p, env, a, Create(description, i)).0;
        assert a' == Rewrite(a, i, Entry(description, None, None));
        assert ValueFile(i) !in st.store.files;
        SealedElsewhere(p, RecipientsOf(p, id, a), st.store.files, st'.store.files, a, a', {i});
      }
    }
  }

  /** Both files of an item and its place in the index are gone. */
  lemma AfterItemDelete(p: Primitives, values: set<Bytes>, id: Identity, st: State, a: AState, i: Uuid, tick: nat)
    requires Coherent(p, values, id, st, a) && a.open
    ensures var files' := st.store.files - {MetadataFile(i)} - {ValueFile(i)};
      var mem' := st.mem.(items := Some(ItemsOf(st.mem) - {i}));
      && Coherent(p, values, id, State(Store(files', tick), mem'),
                  a.(entries := a.entries - {i}, torn := a.torn - {i}, outdated := a.outdated - {i}))
      && SameValueFiles(st.store.files, files', {i})
  {
    hide Index, Readable, BaseOk, HmacSecret, Matches;
    var secret := HmacSecret(p, id);
    var files := st.store.files;
    var files1 := files - {MetadataFile(i)};
    IndexAfterDelete(p, secret, files, MetadataFile(i));
    IndexAfterDelete(p, secret, files1, ValueFile(i));
    BaseAfterItemDelete(p, id, a.key.value, a.recovery, files, MetadataFile(i));
    BaseAfterItemDelete(p, id, a.key.value, a.recovery, files1, ValueFile(i));
  }

  lemma DeleteStep(p: Primitives, env: Environment, values: set<Bytes>, id: Identity, st: State, a: AState, i: Uuid)
    requires Lawful(p) && RefinesFor(p, values, id, st, a) && DeletesSucceed(env)
    ensures var (st', reply) := DeleteItem(env, st, i);
      && reply == Ideal(p, env, a, Delete(i)).1
      && RefinesFor(p, values, id, st', Ideal(p, env, a, Delete(i)).0)
  {
    hide Index, Readable, BaseOk, HmacSecret, Lawful, IndexOk, Sealed, AllSealed;
    ItemsInMemory(p, values, id, st, a);
    if a.open {
      var a' := Ideal(p, env, a, Delete(i)).0;
      var st' := DeleteItem(env, st, i).0;
      if i in a.entries {
        AfterItemDelete(p, values, id, st, a, i, st.store.tick + 2);
      } else {
        assert a.entries - {i} == a.entries && a.torn - {i} == a.torn;
      }
      SealedElsewhere(p, RecipientsOf(p, id, a), st.store.files, st'.store.files, a, a', {i});
    }
  }

  lemma GetStep(p: Primitives, env: Environment, values: set<Bytes>, id: Identity, st: State, a: AState, i: Uuid)
    requires Lawful(p) && Coherent(p, values, id, st, a)
    requires CollisionFree(p, values) || i !in a.torn
    ensures GetItem(p, st, i) == Ideal(p, env, a, Get(i)).1
  {
    hide Index, Coherent, HmacSecret, Lawful, ReadItemValue, CollisionFree, Sum;
    ItemsInMemory(p, values, id, st, a);
    MemoryWhenOpen(p, values, id, st, a);
    if a.open && i in a.entries {
      IndexedItem(p, values, id, st, a, i);
      ReadValueStep(p, values, id, st, a, i);
      if a.entries[i].value.Some? { SumIsNotEmpty(p, a.entries[i].value.value); }
    }
  }

  /** Checking the reader records it as the peer if there was none yet. */
  lemma VerifyPeerStep(p: Primitives, env: Environment, values: set<Bytes>, id: Identity, st: State, a: AState,
                       i: Uuid, peer: string)
    requires Lawful(p) && RefinesFor(p, values, id, st, a) && a.open && i in a.entries
    ensures i in ItemsOf(st.mem)
    ensures var (st1, verified) := VerifyPeer(p, env, st, ItemsOf(st.mem)[i], peer);
      var e := a.entries[i];
      && !verified.Halt?
      && (verified.Return? <==> (e.peer.None? && !env.writeFails(st.store.tick)) || e.peer == Some(peer))
      && st1.store.tick == (if e.peer.None? then st.store.tick + 1 else st.store.tick)
      && RefinesFor(p, values, id, st1,
                    if verified.Return? then a.(entries := a.entries[i := e.(peer := Some(peer))]) else a)
  {
    hide Index, Readable, BaseOk, HmacSecret, IndexOk, ValuesOk, Lawful, Frame, Sum, Recipients, Sealed, AllSealed;
    ItemsInMemory(p, values, id, st, a);
    IndexedItem(p, values, id, st, a, i);
    var item := ItemsOf(st.mem)[i];
    var e := a.entries[i];
    var a1 := a.(entries := a.entries[i := e.(peer := Some(peer))]);
    if e.peer.None? {
      ValueIsAmong(p, values, id, st, a, i);
      AfterMetadataWrite(p, values, id, st, a, item.(peer := Some(peer)), e.(peer := Some(peer)), st.store.tick + 1);
      assert Rewrite(a, i, e.(peer := Some(peer))) == a1;
      var (st1, verified) := VerifyPeer(p, env, st, item, peer);
      if verified.Return? {
        SealedElsewhere(p, RecipientsOf(p, id, a), st.store.files, st1.store.files, a, a1, {});
      }
    } else if e.peer == Some(peer) {
      assert a1 == a;
    }
  }

  lemma ValueIsAmong(p: Primitives, values: set<Bytes>, id: Identity, st: State, a: AState, i: Uuid)
    requires Coherent(p, values, id, st, a) && i in a.entries
    ensures a.entries[i].value.Some? ==> a.entries[i].value.value in values
    ensures i in a.torn ==> a.torn[i] in values && a.entries[i].value != Some(a.torn[i])
  {
    hide Index, BaseOk, HmacSecret, IndexOk;
  }

  lemma GetForPeerStep(p: Primitives, env: Environment, values: set<Bytes>, id: Identity, st: State, a: AState,
                       i: Uuid, peer: string)
    requires Lawful(p) && RefinesFor(p, values, id, st, a)
    requires CollisionFree(p, values) || i !in a.torn
    ensures var (st', reply) := GetItemForPeer(p, env, st, i, peer);
      var (from, until) := (st.store.tick, st'.store.tick);
      && Acceptable(p, env, a, GetForPeer(i, peer), reply, from, until)
      && RefinesFor(p, values, id, st', Track(p, env, a, GetForPeer(i, peer), reply, from, until))
  {
    hide AllSealed, Coherent, CollisionFree, VerifyPeer, ReadItemValue, Lawful, HmacSecret, Index, AfterSet;
    ItemsInMemory(p, values, id, st, a);
    MemoryWhenOpen(p, values, id, st, a);
    if a.open && i in a.entries {
      VerifyPeerStep(p, env, values, id, st, a, i, peer);
      var item := ItemsOf(st.mem)[i];
      var (st1, verified) := VerifyPeer(p, env, st, item, peer);
      if verified.Return? {
        var a1 := a.(entries := a.entries[i := a.entries[i].(peer := Some(peer))]);
        ReadAfterPin(p, values, id, st, a, i, st1, a1);
      }
    }
  }

  /** Reading with the item as it was before its peer was recorded. */
  lemma ReadAfterPin(p: Primitives, values: set<Bytes>, id: Identity, st: State, a: AState, i: Uuid, st1: State,
                     a1: AState)
    requires Lawful(p) && Coherent(p, values, id, st, a) && a.open && i in a.entries && i in ItemsOf(st.mem)
    requires a1.open && a1.torn == a.torn && i in a1.entries && a1.entries[i].value == a.entries[i].value
    requires Coherent(p, values, id, st1, a1)
    requires CollisionFree(p, values) || i !in a.torn
    ensures var e := a.entries[i];
      && (ItemsOf(st.mem)[i].checksum == [] <==> e.value.None?)
      && ReadItemValue(p, st1, ItemsOf(st.mem)[i]) ==
           if e.value.Some? && i !in a.torn then Return(e.value.value) else Fail
  {
    hide Index, Coherent, HmacSecret, Lawful, Sum, CollisionFree;
    ItemsInMemory(p, values, id, st, a);
    IndexedItem(p, values, id, st, a, i);
    IndexedItem(p, values, id, st1, a1, i);
    if a.entries[i].value.Some? { SumIsNotEmpty(p, a.entries[i].value.value); }
    ReadValueStep(p, values, id, st1, a1, i);
    SameRead(p, st1, ItemsOf(st.mem)[i], Index(p, HmacSecret(p, id), st1.store.files)[i]);
  }

  /** Reading looks at the id and the checksum only. */
  lemma SameRead(p: Primitives, st: State, item: Item, item': Item)
    requires item.id == item'.id && item.checksum == item'.checksum
    ensures ReadItemValue(p, st, item) == ReadItemValue(p, st, item')
  {
  }

  // ------------------------------------------------------ recovery recipient

  lemma AfterRecoveryWrite(p: Primitives, values: set<Bytes>, id: Identity, st: State, a: AState,
                           files: Files, recovery: Option<Recipient>, tick: nat)
    requires Coherent(p, values, id, st, a)
    requires forall name :: name != RecoveryFile && name != RecoverySumFile ==>
      Find(files, name) == Find(st.store.files, name)
    requires LoadRecovery(p, HmacSecret(p, id), files) == Ok(recovery)
    ensures Coherent(p, values, id, State(Store(files, tick), st.mem), a.(recovery := recovery))
    ensures Index(p, HmacSecret(p, id), files) == Index(p, HmacSecret(p, id), st.store.files)
    ensures SameValueFiles(st.store.files, files, {})
  {
    hide Index, LoadRecovery, Matches, HmacSecret, ValuesOk;
    var secret := HmacSecret(p, id);
    SameIndex(p, secret, st.store.files, files);
    assert Find(files, IdentityFile) == Find(st.store.files, IdentityFile);
    assert Find(files, VersionFile) == Find(st.store.files, VersionFile);
    assert forall k :: ReadIdentity(p, files, k) == ReadIdentity(p, st.store.files, k);
    assert SameValueFiles(st.store.files, files, {});
    SameValues(p, values, id, st.store.files, files, a, a.(recovery := recovery));
  }

  lemma WriteRecoveryStep(p: Primitives, env: Environment, values: set<Bytes>, id: Identity, st: State, a: AState,
                          r: Recipient)
    requires Lawful(p) && DeletesSucceed(env) && Coherent(p, values, id, st, a)
    ensures var (s, ok) := WriteRecovery(p, env, st.store, r, HmacSecret(p, id));
      && s.tick > st.store.tick
      && ok == Clean(env, st.store.tick, s.tick)
      && ok == !AttemptFails(env, st.store.tick)
      && (!ok ==> s.tick == NextAttempt(env, st.store.tick))
      && (ok ==> Coherent(p, values, id, st.(store := s), a.(recovery := Some(r))))
      && (!ok ==> exists rec :: Coherent(p, values, id, st.(store := s), a.(recovery := rec)))
      && (!ok && a.recovery.None? ==> Coherent(p, values, id, st.(store := s), a))
      && Index(p, HmacSecret(p, id), s.files) == Index(p, HmacSecret(p, id), st.store.files)
      && SameValueFiles(st.store.files, s.files, {})
  {
    hide Index, HmacSecret, IndexOk, ValuesOk;
    var t := st.store.tick;
    var secret := HmacSecret(p, id);
    var (s, ok) := WriteRecovery(p, env, st.store, r, secret);
    var recovery := if ok then Some(r) else if env.writeFails(t) then a.recovery else None;
    assert p.parseRecipient(p.showRecipient(r)) == Some(r);
    assert LoadRecovery(p, secret, s.files) == Ok(recovery);
    AfterRecoveryWrite(p, values, id, st, a, s.files, recovery, s.tick);
    assert a.recovery.None? && !ok ==> a.(recovery := recovery) == a;
  }

  /** Putting the previous recipient back succeeds unless all attempts fail; even then the
      recovery files can be loaded. */
  lemma {:induction false} RestoreRecoveryStep(p: Primitives, env: Environment, values: set<Bytes>, id: Identity,
                                               st: State, a: AState, rec: Option<Recipient>, attempts: nat)
    requires Lawful(p) && DeletesSucceed(env) && a.recovery.Some?
    requires Coherent(p, values, id, st, a.(recovery := rec))
    ensures var (s, ok) := RestoreRecovery(p, env, st.store, a.recovery.value, HmacSecret(p, id), attempts);
      && s.tick >= st.store.tick
      && ok == !AttemptsFail(env, st.store.tick, attempts)
      && (if ok then Coherent(p, values, id, st.(store := s), a)
          else exists rec' :: Coherent(p, values, id, st.(store := s), a.(recovery := rec')))
      && SameValueFiles(st.store.files, s.files, {})
    decreases attempts
  {
    hide Index, HmacSecret, Coherent, WriteRecovery, Lawful, AttemptFails, NextAttempt;
    if attempts > 0 {
      var a0 := a.(recovery := rec);
      WriteRecoveryStep(p, env, values, id, st, a0, a.recovery.value);
      var (s1, ok) := WriteRecovery(p, env, st.store, a.recovery.value, HmacSecret(p, id));
      assert a0.(recovery := Some(a.recovery.value)) == a;
      if !ok {
        var rec1 :| Coherent(p, values, id, st.(store := s1), a0.(recovery := rec1));
        assert a0.(recovery := rec1) == a.(recovery := rec1);
        RestoreRecoveryStep(p, env, values, id, st.(store := s1), a, rec1, attempts - 1);
      }
    } else {
      assert st.(store := st.store) == st;
    }
  }

  /** One round of the re-encryption loop. It never stops the process, keeps every entry
      and what every value file decrypts to, and either leaves the value file alone or
      seals it for the current recipients; only a failing write makes it leave alone the
      file of an item that is not torn. */
  lemma ReencryptStep(p: Primitives, env: Environment, values: set<Bytes>, id: Identity, st: State, a: AState, i: Uuid)
    requires Lawful(p) && Coherent(p, values, id, st, a) && a.open && i in a.entries
    requires CollisionFree(p, values) || i !in a.torn
    ensures i in Index(p, HmacSecret(p, id), st.store.files)
    ensures var (st', going) := ReencryptItem(p, env, st, Index(p, HmacSecret(p, id), st.store.files)[i]);
      && going && st'.store.tick >= st.store.tick
      && Coherent(p, values, id, st', a)
      && SameIndexExcept(Index(p, HmacSecret(p, id), st.store.files), Index(p, HmacSecret(p, id), st'.store.files), i)
      && SameValueFiles(st.store.files, st'.store.files, {i})
      && (Sealed(p, RecipientsOf(p, id, a), st'.store.files, i, Stored(a, i)) ||
          (SameValueFiles(st.store.files, st'.store.files, {}) &&
           (i in a.torn || !Clean(env, st.store.tick, st'.store.tick))))
  {
    hide Index, HmacSecret, WriteItemValue, ReadItemValue, SealedFor, Recipients, Lawful, CollisionFree, BaseOk,
      IndexOk;
    ReadValueStep(p, values, id, st, a, i);
    assert Holds(p, id, st.store.files, i, Stored(a, i));
    var item := Index(p, HmacSecret(p, id), st.store.files)[i];
    var o := ReadItemValue(p, st, item);
    if o.Return? {
      WriteValueStep(p, env, values, id, st, a, i, o.value);
      var st' := WriteItemValue(p, env, st, item, o.value).0;
      var (from, until) := (st.store.tick, st'.store.tick);
      SameValueAgain(env, a, i, o.value, from, until);
      SameWhenOutdated(p, values, id, st', AfterSet(env, a, i, o.value, from, until), a);
    }
  }

  /** Writing the value an item has already changes nothing but, perhaps, its recipients. */
  lemma SameValueAgain(env: Environment, a: AState, i: Uuid, value: Bytes, from: nat, until: nat)
    requires i in a.entries && a.entries[i].value == Some(value) && i !in a.torn
    ensures AfterSet(env, a, i, value, from, until).(outdated := a.outdated) == a
  {
    hide Clean;
    assert a.entries[i := a.entries[i].(value := Some(value))] == a.entries;
    assert a.torn - {i} == a.torn;
  }

  lemma SameWhenOutdated(p: Primitives, values: set<Bytes>, id: Identity, st: State, a: AState, a': AState)
    requires Coherent(p, values, id, st, a) && a' == a.(outdated := a'.outdated)
    ensures Coherent(p, values, id, st, a')
  {
    hide Index, BaseOk, IndexOk, ValuesOk;
    SameValues(p, values, id, st.store.files, st.store.files, a, a');
  }

  /** Re-encryption in any order and under any failing writes. */
  lemma {:induction false} ReencryptLoop(p: Primitives, env: Environment, values: set<Bytes>, id: Identity,
                                         st: State, a: AState, items: map<Uuid, Item>, order: seq<Uuid>)
    requires Lawful(p) && Coherent(p, values, id, st, a) && a.open
    requires forall i :: i in order ==> i in items && i in a.entries
    requires CollisionFree(p, values) || a.torn == map[]
    requires forall i :: i in order ==> Find(Index(p, HmacSecret(p, id), st.store.files), i) == Some(items[i])
    requires Distinct(order)
    ensures var (st', going) := ReencryptAll(p, env, st, items, order);
      && going && st'.store.tick >= st.store.tick
      && Coherent(p, values, id, st', a)
      && SameValueFiles(st.store.files, st'.store.files, set i | i in order)
      && (forall i :: i in order ==>
            Sealed(p, RecipientsOf(p, id, a), st'.store.files, i, Stored(a, i)) ||
            (Find(st'.store.files, ValueFile(i)) == Find(st.store.files, ValueFile(i)) &&
             (i in a.torn || !Clean(env, st.store.tick, st'.store.tick))))
    decreases |order|
  {
    hide Index, HmacSecret, Coherent, ReencryptItem, Lawful, CollisionFree, SealedFor, Recipients, Stored;
    if order != [] {
      var i, rest := order[0], order[1..];
      ReencryptStep(p, env, values, id, st, a, i);
      var st1 := ReencryptItem(p, env, st, items[i]).0;
      assert items[i] == Index(p, HmacSecret(p, id), st.store.files)[i];
      forall j | j in rest ensures Find(Index(p, HmacSecret(p, id), st1.store.files), j) == Some(items[j]) {
        assert j != i;
      }
      ReencryptLoop(p, env, values, id, st1, a, items, rest);
      var st' := ReencryptAll(p, env, st, items, order).0;
      assert Clean(env, st.store.tick, st'.store.tick) ==>
        Clean(env, st.store.tick, st1.store.tick) && Clean(env, st1.store.tick, st'.store.tick);
      assert Find(st'.store.files, ValueFile(i)) == Find(st1.store.files, ValueFile(i)) by { assert i !in rest; }
      forall j | j in rest ensures Find(st1.store.files, ValueFile(j)) == Find(st.store.files, ValueFile(j)) {
        assert j != i;
      }
    }
  }

  /** The new recipient is on record: all values stay what they are, and unless a write
      fails, exactly the torn items are left sealed for earlier recipients. */
  lemma SetRecoveryLoop(p: Primitives, env: Environment, values: set<Bytes>, id: Identity, st: State, s1: Store,
                        a: AState, r: Recipient)
    requires Lawful(p) && Sound(env) && a.open
    requires CollisionFree(p, values) || a.torn == map[]
    requires Coherent(p, values, id, st.(store := s1), a.(recovery := Some(r)))
    ensures var items := Index(p, HmacSecret(p, id), s1.files);
      && (forall i :: i in env.shuffle(s1.tick, items.Keys) ==> i in items)
      && var (st', going) := ReencryptAll(p, env, st.(store := s1), items, env.shuffle(s1.tick, items.Keys));
      && going && st'.store.tick >= s1.tick
      && RefinesFor(p, values, id, st', a.(recovery := Some(r), outdated := a.entries.Keys))
      && (Clean(env, s1.tick, st'.store.tick) ==>
            RefinesFor(p, values, id, st', a.(recovery := Some(r), outdated := a.torn.Keys)))
  {
    hide Index, HmacSecret, Lawful, CollisionFree, Sealed, BaseOk, ValuesOk, ReencryptAll, Recipients;
    var a1 := a.(recovery := Some(r));
    var st1 := st.(store := s1);
    var items := Index(p, HmacSecret(p, id), s1.files);
    var order := env.shuffle(s1.tick, items.Keys);
    assert Enumerates(order, items.Keys);
    ReencryptLoop(p, env, values, id, st1, a1, items, order);
    var st' := ReencryptAll(p, env, st1, items, order).0;
    SameWhenOutdated(p, values, id, st', a1, a1.(outdated := a.entries.Keys));
    SameWhenOutdated(p, values, id, st', a1, a1.(outdated := a.torn.Keys));
    forall j | j in a.entries && j !in a.torn && Clean(env, s1.tick, st'.store.tick)
      ensures Sealed(p, RecipientsOf(p, id, a1), st'.store.files, j, Stored(a1, j))
    {
      assert j in order;
    }
  }

  lemma SetRecoveryStep(p: Primitives, env: Environment, values: set<Bytes>, id: Identity, st: State, a: AState,
                        r: Recipient)
    requires Lawful(p) && Sound(env) && DeletesSucceed(env)
    requires CollisionFree(p, values) || a.torn == map[]
    requires RefinesFor(p, values, id, st, a)
    ensures var (st', reply) := SetRecoveryRecipient(p, env, st, r);
      var (from, until) := (st.store.tick, st'.store.tick);
      && Acceptable(p, env, a, SetRecovery(r), reply, from, until)
      && (a.open ==>
            && reply in {Done, Failed, Halted}
            && (reply == Done <==> !AttemptFails(env, from))
            && (reply == Halted <==> a.recovery.Some? && AttemptsFail(env, from, 4)))
      && (if reply.Halted?
          then exists rec :: RefinesFor(p, values, id, st', a.(recovery := rec, outdated := a.entries.Keys))
          else RefinesFor(p, values, id, st', Track(p, env, a, SetRecovery(r), reply, from, until)))
  {
    hide Index, HmacSecret, Lawful, CollisionFree, Sealed, Recipients, WriteRecovery, RestoreRecovery, ReencryptAll,
      ValuesOk, LoadRecovery, Matches;
    if a.open {
      var secret := HmacSecret(p, id);
      assert LoadRecovery(p, secret, st.store.files) == Ok(a.recovery);
      var (s1, ok) := WriteRecovery(p, env, st.store, r, secret);
      WriteRecoveryStep(p, env, values, id, st, a, r);
      var (st', reply) := SetRecoveryRecipient(p, env, st, r);
      if ok {
        assert Readable(s1.files);
        SetRecoveryLoop(p, env, values, id, st, s1, a, r);
        assert Clean(env, st.store.tick, st'.store.tick) <==> Clean(env, s1.tick, st'.store.tick);
      } else {
        RollBackStep(p, env, values, id, st, s1, a);
        assert AttemptsFail(env, st.store.tick, 4) == AttemptsFail(env, s1.tick, 3);
        assert !Clean(env, st.store.tick, st'.store.tick);
      }
    }
  }

  /** Rolling back keeps everything, or, if there is something to put back and three attempts
      fail, gives up with the recipient unknown. */
  lemma RollBackStep(p: Primitives, env: Environment, values: set<Bytes>, id: Identity, st: State, s1: Store, a: AState)
    requires Lawful(p) && DeletesSucceed(env) && RefinesFor(p, values, id, st, a)
    requires SameValueFiles(st.store.files, s1.files, {})
    requires exists rec :: Coherent(p, values, id, st.(store := s1), a.(recovery := rec))
    requires a.recovery.None? ==> Coherent(p, values, id, st.(store := s1), a)
    ensures var (s2, restored) := RollBackRecovery(p, env, s1, a.recovery, HmacSecret(p, id));
      && s2.tick >= s1.tick
      && restored == !(a.recovery.Some? && AttemptsFail(env, s1.tick, 3))
      && (if restored then RefinesFor(p, values, id, st.(store := s2), a)
          else exists rec ::
            RefinesFor(p, values, id, st.(store := s2), a.(recovery := rec, outdated := a.entries.Keys)))
  {
    hide Index, HmacSecret, Lawful, Sealed, AllSealed, Recipients, RestoreRecovery, Coherent, AttemptsFail;
    var (s2, restored) := RollBackRecovery(p, env, s1, a.recovery, HmacSecret(p, id));
    if a.recovery.Some? {
      var rec :| Coherent(p, values, id, st.(store := s1), a.(recovery := rec));
      RestoreRecoveryStep(p, env, values, id, st.(store := s1), a, rec, 3);
    }
    assert SameValueFiles(st.store.files, s2.files, {}) by {
      forall j: Uuid ensures Find(s2.files, ValueFile(j)) == Find(st.store.files, ValueFile(j)) {
        assert Find(s1.files, ValueFile(j)) == Find(st.store.files, ValueFile(j));
      }
    }
    if restored {
      SealedElsewhere(p, RecipientsOf(p, id, a), st.store.files, s2.files, a, a, {});
    } else {
      var rec :| Coherent(p, values, id, st.(store := s2), a.(recovery := rec));
      var a' := a.(recovery := rec, outdated := a.entries.Keys);
      SameWhenOutdated(p, values, id, st.(store := s2), a.(recovery := rec), a');
      NothingToSeal(p, RecipientsOf(p, id, a'), s2.files, a');
      assert RefinesFor(p, values, id, st.(store := s2), a.(recovery := rec, outdated := a.entries.Keys));
    }
  }

  lemma NothingToSeal(p: Primitives, rs: seq<Recipient>, files: Files, a: AState)
    requires a.entries.Keys <= a.outdated
    ensures AllSealed(p, rs, files, a)
  {
  }

  // ------------------------------------------------------------- unlocking

  /** Writing the version file of a current store. */
  lemma AfterVersionWrite(p: Primitives, values: set<Bytes>, id: Identity, st: State, a: AState, v: Version, tick: nat)
    requires Lawful(p) && Coherent(p, values, id, st, a) && !NeedsRecoveryHash(Some(v))
    ensures var files' := st.store.files[VersionFile := p.showVersion(v)];
      && Coherent(p, values, id, State(Store(files', tick), st.mem), a)
      && SameValueFiles(st.store.files, files', {})
  {
    hide Index, Readable, HmacSecret, Matches, NeedsRecoveryHash;
    var files' := st.store.files[VersionFile := p.showVersion(v)];
    IndexAfterOtherWrite(p, HmacSecret(p, id), st.store.files, VersionFile, p.showVersion(v));
    assert p.parseVersion(p.showVersion(v)) == Some(v);
    assert forall k :: ReadIdentity(p, files', k) == ReadIdentity(p, st.store.files, k);
  }

  /** Unlocking a vault that has been unlocked before. */
  lemma UnlockStep(p: Primitives, env: Environment, values: set<Bytes>, id: Identity, st: State, a: AState,
                   passphrase: Bytes)
    requires Lawful(p) && RefinesFor(p, values, id, st, a)
    requires !NeedsRecoveryHash(Some(env.storeVersion))
    requires Clean(env, st.store.tick, UnlockVault(p, env, st, passphrase).0.store.tick)
    ensures var (st', reply) := UnlockVault(p, env, st, passphrase);
      && reply == Ideal(p, env, a, Unlock(passphrase)).1
      && RefinesFor(p, values, id, st', Ideal(p, env, a, Unlock(passphrase)).0)
  {
    hide Index, HmacSecret, Lawful, Sealed, AllSealed, Recipients, ValuesOk, LoadRecovery, Matches, KeyOf,
      NeedsRecoveryHash, ReadIdentity, LessEqual;
    var key := KeyOf(p, env, passphrase);
    if !a.open && key == a.key.value {
      AfterVersionWrite(p, values, id, st, a, env.storeVersion, st.store.tick + 1);
      var (st', reply) := UnlockVault(p, env, st, passphrase);
      var a' := a.(open := true);
      assert a'.(key := Some(key)) == a';
      SameValues(p, values, id, st.store.files, st'.store.files, a, a');
      assert Coherent(p, values, id, st', a');
      SealedElsewhere(p, RecipientsOf(p, id, a), st.store.files, st'.store.files, a, a', {});
    }
  }

  lemma FreshFiles(p: Primitives, env: Environment, id: Identity, key: Bytes, nonce: Bytes)
    requires Lawful(p) && |nonce| == 12 && !NeedsRecoveryHash(Some(env.storeVersion))
    ensures var (sealed, version) := (SealedIdentity(p, key, nonce, id), p.showVersion(env.storeVersion));
      var files := map[IdentityFile := sealed, VersionFile := version];
      && BaseOk(p, id, key, None, files)
      && Readable(files)
      && Index(p, HmacSecret(p, id), files) == map[]
  {
    hide HmacSecret, NeedsRecoveryHash, LessEqual, Unframe, Index;
    var sealed := SealedIdentity(p, key, nonce, id);
    var files := map[IdentityFile := sealed, VersionFile := p.showVersion(env.storeVersion)];
    assert sealed[..12] == nonce && sealed[12..] == p.seal(key, nonce, p.showIdentity(id));
    assert p.parseIdentity(p.showIdentity(id)) == Some(id);
    assert ReadIdentity(p, files, key) == Return(id);
    assert CurrentVersion(p, files) == Ok(Some(env.storeVersion));
    IndexFromEntries(p, HmacSecret(p, id), files, map[]);
  }

  /** The very first unlock picks the identity and seals it with the key. */
  lemma FirstUnlockStep(p: Primitives, env: Environment, values: set<Bytes>, st: State, passphrase: Bytes)
    requires Lawful(p) && Sound(env) && st.store.files == map[] && st.mem == Locked
    requires !NeedsRecoveryHash(Some(env.storeVersion))
    requires Clean(env, st.store.tick, UnlockVault(p, env, st, passphrase).0.store.tick)
    ensures var (st', reply) := UnlockVault(p, env, st, passphrase);
      && reply == Done
      && RefinesFor(p, values, env.newIdentity(st.store.tick), st', Ideal(p, env, Empty, Unlock(passphrase)).0)
  {
    hide HmacSecret, LessEqual, KeyOf, Index, BaseOk, Readable, SealedIdentity, Lawful;
    var t := st.store.tick;
    var id := env.newIdentity(t);
    var key := KeyOf(p, env, passphrase);
    var sealed := SealedIdentity(p, key, env.gcmNonce(t), id);
    FreshFiles(p, env, id, key, env.gcmNonce(t));
    var files := map[IdentityFile := sealed, VersionFile := p.showVersion(env.storeVersion)];
    var (st', reply) := UnlockVault(p, env, st, passphrase);
    assert !env.writeFails(t);
    assert st.store.files[IdentityFile := sealed] == map[IdentityFile := sealed];
    assert !env.writeFails(t + 1);
    assert st' == State(Store(files, t + 2), MemoryFor(p, id, key, files));
  }
}
