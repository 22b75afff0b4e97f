/** The vault and its in-memory backend as objects that are updated in place. Every
    method is proved equal to the function of `VaultModel` it stands for. */
module Vault {
  import opened Wrappers
  import opened Crypto
  import opened Metadata
  import opened Names
  import opened Versions
  import opened VaultModel

  /** A flat map of files; `env` decides which changes fail. */
  class Backend {
    const env: Environment
    var files: Files
    var tick: nat

    constructor (env: Environment)
      ensures this.env == env && Snapshot() == Store(map[], 0)
    {
      this.env := env;
      files := map[];
      tick := 0;
    }

    function Snapshot(): Store
      reads this
    {
      Store(files, tick)
    }

    /** The files directly in the root, in no particular order. */
    method ListFiles() returns (names: seq<Name>)
      ensures forall name :: name in names <==> name in files && IsRoot(PathOf(name))
    {
      names := [];
      var rest := files.Keys;
      while rest != {}
        invariant rest <= files.Keys
        invariant forall name :: name in names <==> name in files && name !in rest && IsRoot(PathOf(name))
        decreases |rest|
      {
        var name :| name in rest;
        if IsRoot(PathOf(name)) {
          names := names + [name];
        }
        rest := rest - {name};
      }
    }

    method ReadFile(name: Name) returns (data: Option<Bytes>)
      ensures data == Find(files, name)
    {
      data := if name in files then Some(files[name]) else None;
    }

    method WriteFile(name: Name, data: Bytes) returns (ok: bool)
      modifies this
      ensures (Snapshot(), ok) == VaultModel.WriteFile(env, old(Snapshot()), name, data)
    {
      ok := !env.writeFails(tick);
      if ok {
        files := files[name := data];
      }
      tick := tick + 1;
    }

    method DeleteFile(name: Name) returns (existed: Result<bool>)
      modifies this
      ensures (Snapshot(), existed) == VaultModel.DeleteFile(env, old(Snapshot()), name)
    {
      if env.deleteFails(tick) {
        existed := Err;
      } else {
        existed := Ok(name in files);
        files := files - {name};
      }
      tick := tick + 1;
    }
  }

  class Vault {
    const p: Primitives
    const env: Environment
    const backend: Backend
    var identityKey: Option<Bytes>
    var metadataHmacSecret: Option<Bytes>
    var primaryRecipient: Option<Recipient>
    var items: Option<map<Uuid, Item>>

    constructor (p: Primitives, backend: Backend)
      ensures this.p == p && this.backend == backend && this.env == backend.env
      ensures Snapshot() == State(backend.Snapshot(), Locked)
    {
      this.p := p;
      this.env := backend.env;
      this.backend := backend;
      identityKey, metadataHmacSecret, primaryRecipient, items := None, None, None, None;
    }

    function Snapshot(): State
      reads this, backend
    {
      State(backend.Snapshot(), Memory(identityKey, metadataHmacSecret, primaryRecipient, items))
    }

    ghost predicate Valid() {
      backend.env == env && Shuffles(env)
    }

    // -------------------------------------------------------------- helpers

    /** What the files listed so far say about `id`. */
    function Listed(names: seq<Name>, secret: Bytes, id: Uuid): Option<Item>
      reads backend
    {
      if MetadataFile(id) in names then GenuineItem(p, secret, backend.files, id) else None
    }

    /** Reads one metadata file; stops the process when it is too short to be sliced. */
    method ReadItemMetadata(name: Name, secret: Bytes) returns (o: Outcome<Item>)
      requires name in backend.files
      ensures o.Halt? <==> |backend.files[name]| < 32
      ensures o.Return? <==> exists id :: name == MetadataFile(id) && GenuineItem(p, secret, backend.files, id).Some?
      ensures o.Return? ==>
        name == MetadataFile(o.value.id) && GenuineItem(p, secret, backend.files, o.value.id) == Some(o.value)
    {
      var data := backend.ReadFile(name);
      if |data.value| < 32 {
        return Halt;
      }
      var item := Unframe(p, secret, name, data.value);
      o := if item.Some? then Return(item.value) else Fail;
    }

    /** Reads every metadata file; `None` when the process stops on one that is too
        short. The listing order does not matter. */
    method ReadAllMetadata(secret: Bytes) returns (found: Option<map<Uuid, Item>>)
      ensures found == if Readable(backend.files) then Some(Index(p, secret, backend.files)) else None
    {
      hide GenuineItem, PathOf, IsRoot, Index;
      var names := backend.ListFiles();
      var index: map<Uuid, Item> := map[];
      for k := 0 to |names|
        invariant forall j :: 0 <= j < k && IsMetadataName(names[j]) ==> |backend.files[names[j]]| >= 32
        invariant forall id :: Find(index, id) == Listed(names[..k], secret, id)
      {
        var name := names[k];
        ghost var before := index;
        if IsMetadataName(name) {
          var o := ReadItemMetadata(name, secret);
          match o {
            case Halt => return None;
            case Fail =>
            case Return(item) => index := index[item.id := item];
          }
        }
        assert names[..k + 1] == names[..k] + [name];
        forall id ensures Find(index, id) == Listed(names[..k + 1], secret, id) {
          assert Find(before, id) == Listed(names[..k], secret, id);
        }
      }
      assert names[..|names|] == names;
      AllListed(names);
      forall id ensures GenuineItem(p, secret, backend.files, id) == Find(index, id) {
        assert Find(index, id) == Listed(names, secret, id);
        NotGenuineUnlessPresent(secret, id);
      }
      IndexFromEntries(p, secret, backend.files, index);
      found := Some(index);
    }

    method LoadRecoveryRecipient(secret: Bytes) returns (r: Result<Option<Recipient>>)
      ensures r == LoadRecovery(p, secret, backend.files)
    {
      var recipient := backend.ReadFile(RecoveryFile);
      if recipient.None? {
        return Ok(None);
      }
      var check := backend.ReadFile(RecoverySumFile);
      if check.None? {
        return Err;
      }
      var parsed := p.parseRecipient(recipient.value);
      if parsed.None? || check.value != RecoveryHash(p, parsed.value, secret) {
        return Err;
      }
      r := Ok(parsed);
    }

    method WriteRecoveryRecipient(recipient: Recipient, secret: Bytes) returns (ok: bool)
      requires Valid()
      modifies backend
      ensures (backend.Snapshot(), ok) == WriteRecovery(p, env, old(backend.Snapshot()), recipient, secret)
    {
      ok := backend.WriteFile(RecoveryFile, p.showRecipient(recipient));
      if !ok {
        return;
      }
      ok := backend.WriteFile(RecoverySumFile, RecoveryHash(p, recipient, secret));
      if !ok {
        var _ := backend.DeleteFile(RecoveryFile);
      }
    }

    method ReadOwnIdentity(key: Bytes) returns (o: Outcome<Identity>)
      ensures o == ReadIdentity(p, backend.files, key)
    {
      var data := backend.ReadFile(IdentityFile);
      if data.None? || |data.value| < 12 {
        return Halt;
      }
      var text := p.unseal(key, data.value[..12], data.value[12..]);
      if text.None? {
        return Fail;
      }
      var id := p.parseIdentity(text.value);
      o := if id.Some? then Return(id.value) else Fail;
    }

    method WriteItemMetadata(item: Item, secret: Bytes) returns (ok: bool)
      requires Valid()
      modifies backend
      ensures (backend.Snapshot(), ok) == WriteMetadata(p, env, old(backend.Snapshot()), item, secret)
    {
      var payload := p.encodeItem(item);
      ok := backend.WriteFile(MetadataFile(item.id), payload + p.hmac(secret, payload));
    }

    method CopyFile(src: Name, dest: Name) returns (ok: bool)
      requires Valid()
      modifies backend
      ensures (backend.Snapshot(), ok) ==
              if src in old(backend.files)
              then VaultModel.WriteFile(env, old(backend.Snapshot()), dest, old(backend.files)[src])
              else (old(backend.Snapshot()), false)
    {
      var data := backend.ReadFile(src);
      if data.None? {
        return false;
      }
      ok := backend.WriteFile(dest, data.value);
    }

    method UpgradeStore(secret: Bytes) returns (ok: bool)
      requires Valid()
      modifies backend
      ensures (backend.Snapshot(), ok) == Upgrade(p, env, old(backend.Snapshot()), secret)
    {
      hide LessEqual, RecoveryHash;
      var data := backend.ReadFile(VersionFile);
      var current: Option<Version> := None;
      if data.Some? {
        current := p.parseVersion(data.value);
        if current.None? {
          return false;
        }
      }
      if NeedsRecoveryHash(current) {
        var check := backend.ReadFile(RecoverySumFile);
        if check.Some? {
          return false;
        }
        var recipient := backend.ReadFile(RecoveryFile);
        if recipient.Some? {
          var parsed := p.parseRecipient(recipient.value);
          if parsed.None? {
            return false;
          }
          ok := backend.WriteFile(RecoverySumFile, RecoveryHash(p, parsed.value, secret));
          if !ok {
            return;
          }
        }
      }
      ok := backend.WriteFile(VersionFile, p.showVersion(env.storeVersion));
    }

    /** Encrypts to the vault and the recovery recipient; `None` when the process stops. */
    method EncryptForRest(value: Bytes) returns (sealed: Option<Bytes>)
      ensures sealed == VaultModel.EncryptForRest(p, env, Snapshot(), value)
      ensures sealed.Some? ==> metadataHmacSecret.Some?
    {
      if metadataHmacSecret.None? || primaryRecipient.None? {
        return None;
      }
      var recipients := [primaryRecipient.value];
      var recovery := LoadRecoveryRecipient(metadataHmacSecret.value);
      if recovery.Err? {
        return None;
      }
      if recovery.value.Some? {
        recipients := recipients + [recovery.value.value];
      }
      assert recipients == Recipients(primaryRecipient.value, recovery.value);
      sealed := Some(p.encrypt(recipients, env.entropy(backend.tick), value));
    }

    method ReadItemValue(item: Item) returns (o: Outcome<Bytes>)
      ensures o == VaultModel.ReadItemValue(p, Snapshot(), item)
    {
      hide ReadIdentity, Sum;
      var data := backend.ReadFile(ValueFile(item.id));
      if data.None? {
        return Fail;
      }
      if identityKey.None? {
        return Halt;
      }
      var id := ReadOwnIdentity(identityKey.value);
      if !id.Return? {
        return Halt;
      }
      var value := p.decrypt(id.value, data.value);
      if value.None? {
        return Halt;
      }
      o := if Sum(p, value.value) != item.checksum then Fail else Return(value.value);
    }

    method WriteItemValue(item: Item, value: Bytes) returns (o: Outcome<()>)
      requires Valid()
      modifies this, backend
      ensures (Snapshot(), o) == VaultModel.WriteItemValue(p, env, old(Snapshot()), item, value)
    {
      hide VaultModel.EncryptForRest, Sum;
      var sealed := EncryptForRest(value);
      if sealed.None? {
        return Halt;
      }
      var ok := true;
      if item.checksum != [] {
        ok := CopyFile(ValueFile(item.id), BackupFile(item.id, env.stamp(backend.tick)));
        if !ok {
          return Fail;
        }
      }
      var updated := item.(checksum := Sum(p, value), modifiedAt := env.now(backend.tick));
      ok := backend.WriteFile(ValueFile(item.id), sealed.value);
      if !ok {
        return Fail;
      }
      ok := WriteItemMetadata(updated, metadataHmacSecret.value);
      if !ok {
        return Fail;
      }
      if items.None? {
        return Halt;
      }
      items := Some(items.value[item.id := updated]);
      o := Return(());
    }

    /** The first reader of an item becomes its peer. */
    method VerifyPeer(item: Item, peer: string) returns (o: Outcome<()>)
      requires Valid()
      modifies this, backend
      ensures (Snapshot(), o) == VaultModel.VerifyPeer(p, env, old(Snapshot()), item, peer)
    {
      if metadataHmacSecret.None? {
        return Halt;
      }
      if item.peer.None? {
        var pinned := item.(peer := Some(peer));
        var ok := WriteItemMetadata(pinned, metadataHmacSecret.value);
        if !ok {
          return Fail;
        }
        if items.None? {
          return Halt;
        }
        items := Some(items.value[item.id := pinned]);
      } else if item.peer.value != peer {
        return Fail;
      }
      o := Return(());
    }

    // ----------------------------------------------------------- operations

    method Unlock(passphrase: Bytes) returns (reply: Reply)
      requires Valid()
      modifies this, backend
      ensures (Snapshot(), reply) == UnlockVault(p, env, old(Snapshot()), passphrase)
    {
      hide Upgrade, ReadIdentity, Readable, Index;
      if identityKey.Some? {
        return Done;
      }
      var key := KeyOf(p, env, passphrase);
      identityKey := Some(key);
      var data := backend.ReadFile(IdentityFile);
      var id: Identity;
      if data.Some? {
        var o := ReadOwnIdentity(key);
        if !o.Return? {
          identityKey := None;
          return if o.Fail? then Failed else Halted;
        }
        id := o.value;
      } else {
        id := env.newIdentity(backend.tick);
        var ok := backend.WriteFile(IdentityFile, SealedIdentity(p, key, env.gcmNonce(backend.tick), id));
        if !ok {
          return Failed;
        }
      }
      var secret := HmacSecret(p, id);
      metadataHmacSecret, primaryRecipient := Some(secret), Some(p.recipientOf(id));
      var ok := UpgradeStore(secret);
      if !ok {
        return Failed;
      }
      var found := ReadAllMetadata(secret);
      if found.None? {
        return Halted;
      }
      items := found;
      reply := Done;
    }

    method Lock() returns (reply: Reply)
      modifies this
      ensures (Snapshot(), reply) == LockVault(old(Snapshot()))
    {
      if identityKey.None? {
        return Failed;
      }
      identityKey, metadataHmacSecret, primaryRecipient, items := None, None, None, None;
      reply := Done;
    }

    method CreateItem(description: string) returns (reply: Reply, id: Uuid)
      requires Valid()
      modifies this, backend
      ensures id == env.newId(old(backend.tick))
      ensures (Snapshot(), reply) == VaultModel.CreateItem(p, env, old(Snapshot()), description, id)
    {
      id := env.newId(backend.tick);
      if identityKey.None? {
        return Failed, id;
      }
      if metadataHmacSecret.None? {
        return Halted, id;
      }
      var item := Item(id, description, None, [], env.now(backend.tick));
      var ok := WriteItemMetadata(item, metadataHmacSecret.value);
      if !ok {
        return Failed, id;
      }
      if items.None? {
        return Halted, id;
      }
      items := Some(items.value[id := item]);
      reply := Done;
    }

    method DeleteItem(id: Uuid) returns (reply: Reply)
      requires Valid()
      modifies this, backend
      ensures (Snapshot(), reply) == VaultModel.DeleteItem(env, old(Snapshot()), id)
    {
      if identityKey.None? {
        return Failed;
      }
      if items.Some? && id in items.value {
        items := Some(items.value - {id});
        var _ := backend.DeleteFile(MetadataFile(id));
        var _ := backend.DeleteFile(ValueFile(id));
      }
      reply := Done;
    }

    method GetItem(id: Uuid) returns (reply: Reply)
      ensures reply == VaultModel.GetItem(p, Snapshot(), id)
    {
      hide VaultModel.ReadItemValue;
      if identityKey.None? || items.None? || id !in items.value {
        return Failed;
      }
      var item := items.value[id];
      if item.checksum == [] {
        return Got(None);
      }
      var o := ReadItemValue(item);
      reply := ReplyOf(o);
    }

    method GetItemForPeer(id: Uuid, peer: string) returns (reply: Reply)
      requires Valid()
      modifies this, backend
      ensures (Snapshot(), reply) == VaultModel.GetItemForPeer(p, env, old(Snapshot()), id, peer)
    {
      hide VaultModel.ReadItemValue, VaultModel.VerifyPeer;
      if identityKey.None? || items.None? || id !in items.value {
        return Failed;
      }
      var item := items.value[id];
      var verified := VerifyPeer(item, peer);
      if !verified.Return? {
        return if verified.Fail? then Failed else Halted;
      }
      if item.checksum == [] {
        return Got(None);
      }
      var o := ReadItemValue(item);
      reply := ReplyOf(o);
    }

    method SetItemValue(id: Uuid, value: Bytes) returns (reply: Reply)
      requires Valid()
      modifies this, backend
      ensures (Snapshot(), reply) == VaultModel.SetItemValue(p, env, old(Snapshot()), id, value)
    {
      hide VaultModel.WriteItemValue;
      if |value| == 0 {
        return Failed;
      }
      if identityKey.None? || items.None? || id !in items.value {
        return Failed;
      }
      var o := WriteItemValue(items.value[id], value);
      reply := match o case Return(_) => Done case Fail => Failed case Halt => Halted;
    }

    method SetRecoveryRecipient(recipient: Recipient) returns (reply: Reply)
      requires Valid()
      modifies this, backend
      ensures (Snapshot(), reply) == VaultModel.SetRecoveryRecipient(p, env, old(Snapshot()), recipient)
    {
      hide LoadRecovery, WriteRecovery, Readable, Index, ReencryptItem;
      if identityKey.None? {
        return Failed;
      }
      if metadataHmacSecret.None? {
        return Halted;
      }
      var secret := metadataHmacSecret.value;
      var previous := LoadRecoveryRecipient(secret);
      if previous.Err? {
        return Failed;
      }
      var ok := WriteRecoveryRecipient(recipient, secret);
      if !ok {
        if previous.value.Some? {
          ok := Restore(previous.value.value, secret);
          if !ok {
            return Halted;
          }
        }
        return Failed;
      }
      var found := ReadAllMetadata(secret);
      if found.None? {
        return Halted;
      }
      var going := Reencrypt(found.value, env.shuffle(backend.tick, found.value.Keys));
      reply := if going then Done else Halted;
    }

    /** Three tries to put the previous recipient back. */
    method Restore(previous: Recipient, secret: Bytes) returns (ok: bool)
      requires Valid()
      modifies backend
      ensures (backend.Snapshot(), ok) == RestoreRecovery(p, env, old(backend.Snapshot()), previous, secret, 3)
    {
      hide WriteRecovery;
      ok := false;
      var i := 0;
      while i < 3 && !ok
        invariant 0 <= i <= 3
        invariant RestoreRecovery(p, env, old(backend.Snapshot()), previous, secret, 3) ==
                  if ok then (backend.Snapshot(), true)
                  else RestoreRecovery(p, env, backend.Snapshot(), previous, secret, 3 - i)
      {
        ok := WriteRecoveryRecipient(previous, secret);
        i := i + 1;
      }
    }

    /** Re-encrypts every item in the given order; false when the process stopped. */
    method Reencrypt(found: map<Uuid, Item>, order: seq<Uuid>) returns (going: bool)
      requires Valid() && forall id :: id in order ==> id in found
      modifies this, backend
      ensures (Snapshot(), going) == ReencryptAll(p, env, old(Snapshot()), found, order)
    {
      hide VaultModel.ReadItemValue, VaultModel.WriteItemValue;
      for k := 0 to |order|
        invariant ReencryptAll(p, env, old(Snapshot()), found, order) ==
                  ReencryptAll(p, env, Snapshot(), found, order[k..])
      {
        assert order[k..][0] == order[k] && order[k..][1..] == order[k + 1..];
        var item := found[order[k]];
        var value := ReadItemValue(item);
        if value.Halt? {
          return false;
        }
        if value.Return? {
          var o := WriteItemValue(item, value.value);
          if o.Halt? {
            return false;
          }
        }
      }
      going := true;
    }

    /** Service request: create an item with a value, or leave no trace of it. */
    method CreateVaultItem(passphrase: Bytes, description: string, value: Bytes) returns (reply: Reply, id: Uuid)
      requires Valid()
      modifies this, backend
      ensures id == env.newId(old(backend.tick))
      ensures (Snapshot(), reply) ==
              VaultModel.CreateVaultItem(p, env, old(Snapshot()), passphrase, description, id, value)
    {
      hide VaultModel.CreateItem, VaultModel.SetItemValue, VaultModel.DeleteItem, KeyOf;
      id := env.newId(backend.tick);
      if identityKey != Some(KeyOf(p, env, passphrase)) {
        return Failed, id;
      }
      reply, id := CreateItem(description);
      if reply != Done {
        return;
      }
      reply := SetItemValue(id, value);
      if reply.Failed? {
        var _ := DeleteItem(id);
      }
    }

    lemma AllListed(names: seq<Name>)
      requires forall name :: name in names <==> name in backend.files && IsRoot(PathOf(name))
      ensures forall name :: name in backend.files && IsMetadataName(name) ==> name in names
    {
      hide PathOf, IsRoot;
      forall name | name in backend.files && IsMetadataName(name) ensures name in names {
        MetadataNamesAreListedJsonFiles(name);
      }
    }

    lemma NotGenuineUnlessPresent(secret: Bytes, id: Uuid)
      ensures GenuineItem(p, secret, backend.files, id).Some? ==> MetadataFile(id) in backend.files
    {
    }
  }
}
