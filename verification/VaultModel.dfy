/** The vault as a state machine over its backend files and its memory. Every
    function mirrors one operation of the vault; class `Vault` is proved equal to
    them, and the theorems about runs are proved about them. */
module VaultModel {
  import opened Wrappers
  import opened Crypto
  import opened Metadata
  import opened Names
  import opened Versions

  /** Everything the outside world decides, indexed by the number of changes asked
      of the backend so far: which writes and deletes fail, fresh randomness, the
      clock, and the order in which Go ranges over a map. */
  datatype Environment = Environment(
    writeFails: nat -> bool,
    deleteFails: nat -> bool,
    gcmNonce: nat -> Bytes,
    entropy: nat -> Bytes,
    newIdentity: nat -> Identity,
    newId: nat -> Uuid,
    now: nat -> int,
    stamp: nat -> string,
    shuffle: (nat, set<Uuid>) -> seq<Uuid>,
    storeVersion: Version,
    secure: bool)

  /** Ranging over a map visits every key once. */
  ghost predicate Shuffles(env: Environment) {
    forall t, ids :: Enumerates(env.shuffle(t, ids), ids)
  }

  ghost predicate Sound(env: Environment) {
    Shuffles(env) && forall t :: |env.gcmNonce(t)| == 12
  }

  ghost predicate DeletesSucceed(env: Environment) {
    forall t :: !env.deleteFails(t)
  }

  /** No write fails between two moments. */
  ghost predicate Clean(env: Environment, from: nat, until: nat) {
    forall t :: from <= t < until ==> !env.writeFails(t)
  }

  // ---------------------------------------------------------------- backend

  datatype Store = Store(files: Files, tick: nat)

  function WriteFile(env: Environment, s: Store, name: Name, data: Bytes): (Store, bool) {
    if env.writeFails(s.tick) then (s.(tick := s.tick + 1), false)
    else (Store(s.files[name := data], s.tick + 1), true)
  }

  /** The flag says whether there was such a file. */
  function DeleteFile(env: Environment, s: Store, name: Name): (Store, Result<bool>) {
    if env.deleteFails(s.tick) then (s.(tick := s.tick + 1), Err)
    else (Store(s.files - {name}, s.tick + 1), Ok(name in s.files))
  }

  // --------------------------------------------------------------- recovery

  function LoadRecovery(p: Primitives, secret: Bytes, files: Files): Result<Option<Recipient>> {
    if RecoveryFile !in files then Ok(None)
    else if RecoverySumFile !in files then Err
    else match p.parseRecipient(files[RecoveryFile])
      case None => Err
      case Some(r) =>
        if files[RecoverySumFile] != RecoveryHash(p, r, secret) then Err else Ok(Some(r))
  }

  function WriteRecovery(p: Primitives, env: Environment, s: Store, r: Recipient, secret: Bytes): (Store, bool) {
    var (s1, ok1) := WriteFile(env, s, RecoveryFile, p.showRecipient(r));
    if !ok1 then (s1, false)
    else
      var (s2, ok2) := WriteFile(env, s1, RecoverySumFile, RecoveryHash(p, r, secret));
      if ok2 then (s2, true) else (DeleteFile(env, s2, RecoveryFile).0, false)
  }

  /** Up to `attempts` tries to put the previous recipient back. */
  function RestoreRecovery(p: Primitives, env: Environment, s: Store, r: Recipient, secret: Bytes, attempts: nat)
    : (Store, bool)
    decreases attempts
  {
    if attempts == 0 then (s, false)
    else
      var (s1, ok) := WriteRecovery(p, env, s, r, secret);
      if ok then (s1, true) else RestoreRecovery(p, env, s1, r, secret, attempts - 1)
  }

  // --------------------------------------------------------------- identity

  function ReadIdentity(p: Primitives, files: Files, key: Bytes): Outcome<Identity> {
    if IdentityFile !in files || |files[IdentityFile]| < 12 then Halt
    else
      var data := files[IdentityFile];
      match p.unseal(key, data[..12], data[12..])
      case None => Fail
      case Some(text) =>
        match p.parseIdentity(text)
        case None => Fail
        case Some(id) => Return(id)
  }

  function SealedIdentity(p: Primitives, key: Bytes, nonce: Bytes, id: Identity): Bytes {
    nonce + p.seal(key, nonce, p.showIdentity(id))
  }

  const Sentinel: Bytes := [115, 101, 110, 116, 105, 110, 101, 108]

  function KeyOf(p: Primitives, env: Environment, passphrase: Bytes): Bytes {
    p.sha256(passphrase + if env.secure then Sentinel else [])
  }

  // ---------------------------------------------------------------- upgrade

  const BeforeRecoveryVerified := Version(0, 2, 0, [], "")

  function NeedsRecoveryHash(version: Option<Version>): bool {
    version.None? || LessEqual(version.value, BeforeRecoveryVerified)
  }

  /** The version on record; an unreadable one is an error. */
  function CurrentVersion(p: Primitives, files: Files): Result<Option<Version>> {
    if VersionFile !in files then Ok(None)
    else match p.parseVersion(files[VersionFile])
      case None => Err
      case Some(v) => Ok(Some(v))
  }

  function Upgrade(p: Primitives, env: Environment, s: Store, secret: Bytes): (Store, bool) {
    var current := CurrentVersion(p, s.files);
    if current.Err? then (s, false)
    else
      var (s1, ok) := if NeedsRecoveryHash(current.value) then AddRecoveryHash(p, env, s, secret) else (s, true);
      if ok then WriteFile(env, s1, VersionFile, p.showVersion(env.storeVersion)) else (s1, false)
  }

  function AddRecoveryHash(p: Primitives, env: Environment, s: Store, secret: Bytes): (Store, bool) {
    if RecoverySumFile in s.files then (s, false)
    else if RecoveryFile !in s.files then (s, true)
    else match p.parseRecipient(s.files[RecoveryFile])
      case None => (s, false)
      case Some(r) => WriteFile(env, s, RecoverySumFile, RecoveryHash(p, r, secret))
  }

  // ------------------------------------------------------------------ vault

  /** The fields of the vault; `None` is Go's nil. */
  datatype Memory = Memory(
    identityKey: Option<Bytes>,
    secret: Option<Bytes>,
    primary: Option<Recipient>,
    items: Option<map<Uuid, Item>>)

  const Locked := Memory(None, None, None, None)

  datatype State = State(store: Store, mem: Memory)

  /** Looking up or deleting in a nil map finds nothing. */
  function ItemsOf(mem: Memory): map<Uuid, Item> {
    if mem.items.Some? then mem.items.value else map[]
  }

  datatype Reply = Done | Got(value: Option<Bytes>) | Failed | Halted

  datatype Op =
    | Unlock(passphrase: Bytes)
    | Lock
    | SetRecovery(recipient: Recipient)
    | Create(description: string, id: Uuid)
    | Delete(id: Uuid)
    | Get(id: Uuid)
    | GetForPeer(id: Uuid, peer: string)
    | Set(id: Uuid, value: Bytes)

  function UnlockVault(p: Primitives, env: Environment, st: State, passphrase: Bytes): (State, Reply) {
    var key := KeyOf(p, env, passphrase);
    if st.mem.identityKey.Some? then (st, Done)
    else if IdentityFile in st.store.files then
      match ReadIdentity(p, st.store.files, key)
      case Halt => (st, Halted)
      case Fail => (st, Failed)
      case Return(id) => OpenVault(p, env, st, key, id)
    else
      var id := env.newIdentity(st.store.tick);
      var (s, ok) := WriteFile(env, st.store, IdentityFile, SealedIdentity(p, key, env.gcmNonce(st.store.tick), id));
      if ok then OpenVault(p, env, st.(store := s), key, id)
      else (State(s, st.mem.(identityKey := Some(key))), Failed)
  }

  function OpenVault(p: Primitives, env: Environment, st: State, key: Bytes, id: Identity): (State, Reply) {
    var secret := HmacSecret(p, id);
    var mem := Memory(Some(key), Some(secret), Some(p.recipientOf(id)), st.mem.items);
    var (s, ok) := Upgrade(p, env, st.store, secret);
    if !ok then (State(s, mem), Failed)
    else if !Readable(s.files) then (State(s, mem), Halted)
    else (State(s, mem.(items := Some(Index(p, secret, s.files)))), Done)
  }

  function LockVault(st: State): (State, Reply) {
    if st.mem.identityKey.None? then (st, Failed) else (st.(mem := Locked), Done)
  }

  function WriteMetadata(p: Primitives, env: Environment, s: Store, item: Item, secret: Bytes): (Store, bool) {
    WriteFile(env, s, MetadataFile(item.id), Frame(p, secret, item))
  }

  function CreateItem(p: Primitives, env: Environment, st: State, description: string, id: Uuid): (State, Reply) {
    if st.mem.identityKey.None? then (st, Failed)
    else if st.mem.secret.None? then (st, Halted)
    else
      var item := Item(id, description, None, [], env.now(st.store.tick));
      var (s, ok) := WriteMetadata(p, env, st.store, item, st.mem.secret.value);
      if !ok then (st.(store := s), Failed)
      else if st.mem.items.None? then (st.(store := s), Halted)
      else (State(s, st.mem.(items := Some(st.mem.items.value[id := item]))), Done)
  }

  /** Both files are tried; failures to delete are only logged. */
  function DeleteItem(env: Environment, st: State, id: Uuid): (State, Reply) {
    if st.mem.identityKey.None? then (st, Failed)
    else if id !in ItemsOf(st.mem) then (st, Done)
    else
      var s := DeleteFile(env, DeleteFile(env, st.store, MetadataFile(id)).0, ValueFile(id)).0;
      (State(s, st.mem.(items := Some(ItemsOf(st.mem) - {id}))), Done)
  }

  function ReadItemValue(p: Primitives, st: State, item: Item): Outcome<Bytes> {
    var files := st.store.files;
    if ValueFile(item.id) !in files then Fail
    else if st.mem.identityKey.None? then Halt
    else match ReadIdentity(p, files, st.mem.identityKey.value)
      case Halt => Halt
      case Fail => Halt
      case Return(id) =>
        match p.decrypt(id, files[ValueFile(item.id)])
        case None => Halt
        case Some(value) => if Sum(p, value) != item.checksum then Fail else Return(value)
  }

  function ReplyOf(o: Outcome<Bytes>): Reply {
    match o
    case Return(value) => Got(Some(value))
    case Fail => Failed
    case Halt => Halted
  }

  function GetItem(p: Primitives, st: State, id: Uuid): Reply {
    if st.mem.identityKey.None? || id !in ItemsOf(st.mem) then Failed
    else if ItemsOf(st.mem)[id].checksum == [] then Got(None)
    else ReplyOf(ReadItemValue(p, st, ItemsOf(st.mem)[id]))
  }

  function VerifyPeer(p: Primitives, env: Environment, st: State, item: Item, peer: string): (State, Outcome<()>) {
    if st.mem.secret.None? then (st, Halt)
    else match item.peer
      case Some(q) => (st, if q == peer then Return(()) else Fail)
      case None =>
        var pinned := item.(peer := Some(peer));
        var (s, ok) := WriteMetadata(p, env, st.store, pinned, st.mem.secret.value);
        if !ok then (st.(store := s), Fail)
        else if st.mem.items.None? then (st.(store := s), Halt)
        else (State(s, st.mem.(items := Some(st.mem.items.value[item.id := pinned]))), Return(()))
  }

  function GetItemForPeer(p: Primitives, env: Environment, st: State, id: Uuid, peer: string): (State, Reply) {
    if st.mem.identityKey.None? || id !in ItemsOf(st.mem) then (st, Failed)
    else
      var item := ItemsOf(st.mem)[id];
      var (st1, verified) := VerifyPeer(p, env, st, item, peer);
      match verified
      case Halt => (st1, Halted)
      case Fail => (st1, Failed)
      case Return(_) => (st1, if item.checksum == [] then Got(None) else ReplyOf(ReadItemValue(p, st1, item)))
  }

  /** Who a value is encrypted to: the vault's own identity, and the recovery
      recipient if there is one. */
  function Recipients(primary: Recipient, recovery: Option<Recipient>): seq<Recipient> {
    [primary] + if recovery.Some? then [recovery.value] else []
  }

  function EncryptForRest(p: Primitives, env: Environment, st: State, value: Bytes): Option<Bytes> {
    if st.mem.secret.None? || st.mem.primary.None? then None
    else match LoadRecovery(p, st.mem.secret.value, st.store.files)
      case Err => None
      case Ok(recovery) =>
        Some(p.encrypt(Recipients(st.mem.primary.value, recovery), env.entropy(st.store.tick), value))
  }

  /** Keeps a copy of the current value file. */
  function BackUpValue(env: Environment, s: Store, id: Uuid): (Store, bool) {
    if ValueFile(id) !in s.files then (s, false)
    else WriteFile(env, s, BackupFile(id, env.stamp(s.tick)), s.files[ValueFile(id)])
  }

  function WriteItemValue(p: Primitives, env: Environment, st: State, item: Item, value: Bytes)
    : (State, Outcome<()>)
  {
    match EncryptForRest(p, env, st, value)
    case None => (st, Halt)
    case Some(sealed) =>
      var (s1, kept) := if item.checksum != [] then BackUpValue(env, st.store, item.id) else (st.store, true);
      if !kept then (st.(store := s1), Fail)
      else
        var item' := item.(checksum := Sum(p, value), modifiedAt := env.now(s1.tick));
        var (s2, stored) := WriteFile(env, s1, ValueFile(item.id), sealed);
        if !stored then (st.(store := s2), Fail)
        else
          var (s3, ok) := WriteMetadata(p, env, s2, item', st.mem.secret.value);
          if !ok then (st.(store := s3), Fail)
          else if st.mem.items.None? then (st.(store := s3), Halt)
          else (State(s3, st.mem.(items := Some(st.mem.items.value[item.id := item']))), Return(()))
  }

  function SetItemValue(p: Primitives, env: Environment, st: State, id: Uuid, value: Bytes): (State, Reply) {
    if value == [] || st.mem.identityKey.None? || id !in ItemsOf(st.mem) then (st, Failed)
    else
      var (st1, o) := WriteItemValue(p, env, st, ItemsOf(st.mem)[id], value);
      (st1, match o case Return(_) => Done case Fail => Failed case Halt => Halted)
  }

  /** Reads one value and writes it back; errors are only logged. */
  function ReencryptItem(p: Primitives, env: Environment, st: State, item: Item): (State, bool) {
    match ReadItemValue(p, st, item)
    case Halt => (st, false)
    case Fail => (st, true)
    case Return(value) =>
      var (st1, o) := WriteItemValue(p, env, st, item, value);
      (st1, !o.Halt?)
  }

  /** The loop over all items; the flag is false when the process stopped. */
  function ReencryptAll(p: Primitives, env: Environment, st: State, items: map<Uuid, Item>, order: seq<Uuid>)
    : (State, bool)
    requires forall id :: id in order ==> id in items
    decreases |order|
  {
    if order == [] then (st, true)
    else
      var (st1, going) := ReencryptItem(p, env, st, items[order[0]]);
      if going then ReencryptAll(p, env, st1, items, order[1..]) else (st1, false)
  }

  /** Whether the vault was left with its previous recipient. */
  function RollBackRecovery(p: Primitives, env: Environment, s: Store, previous: Option<Recipient>, secret: Bytes)
    : (Store, bool)
  {
    if previous.None? then (s, true) else RestoreRecovery(p, env, s, previous.value, secret, 3)
  }

  function SetRecoveryRecipient(p: Primitives, env: Environment, st: State, r: Recipient): (State, Reply)
    requires Shuffles(env)
  {
    if st.mem.identityKey.None? then (st, Failed)
    else if st.mem.secret.None? then (st, Halted)
    else
      var secret := st.mem.secret.value;
      match LoadRecovery(p, secret, st.store.files)
      case Err => (st, Failed)
      case Ok(previous) =>
        var (s1, ok) := WriteRecovery(p, env, st.store, r, secret);
        if !ok then
          var (s2, restored) := RollBackRecovery(p, env, s1, previous, secret);
          (st.(store := s2), if restored then Failed else Halted)
        else if !Readable(s1.files) then (st.(store := s1), Halted)
        else
          var items := Index(p, secret, s1.files);
          var (st2, going) := ReencryptAll(p, env, st.(store := s1), items, env.shuffle(s1.tick, items.Keys));
          (st2, if going then Done else Halted)
  }

  function VerifyPassphrase(p: Primitives, env: Environment, st: State, passphrase: Bytes): bool {
    st.mem.identityKey == Some(KeyOf(p, env, passphrase))
  }

  /** The service's request: create the item, set its value, and take the item away
      again when the value could not be set. */
  function CreateVaultItem(p: Primitives, env: Environment, st: State, passphrase: Bytes, description: string,
                           id: Uuid, value: Bytes): (State, Reply)
  {
    if !VerifyPassphrase(p, env, st, passphrase) then (st, Failed)
    else
      var (st1, created) := CreateItem(p, env, st, description, id);
      if created != Done then (st1, created)
      else
        var (st2, reply) := SetItemValue(p, env, st1, id, value);
        if reply.Failed? then (DeleteItem(env, st2, id).0, Failed) else (st2, reply)
  }

  function Step(p: Primitives, env: Environment, st: State, op: Op): (State, Reply)
    requires Shuffles(env)
  {
    match op
    case Unlock(passphrase) => UnlockVault(p, env, st, passphrase)
    case Lock => LockVault(st)
    case SetRecovery(r) => SetRecoveryRecipient(p, env, st, r)
    case Create(description, id) => CreateItem(p, env, st, description, id)
    case Delete(id) => DeleteItem(env, st, id)
    case Get(id) => (st, GetItem(p, st, id))
    case GetForPeer(id, peer) => GetItemForPeer(p, env, st, id, peer)
    case Set(id, value) => SetItemValue(p, env, st, id, value)
  }

  /** A run stops when the process does. */
  function Run(p: Primitives, env: Environment, st: State, ops: seq<Op>): (State, seq<Reply>)
    requires Shuffles(env)
    decreases |ops|
  {
    if ops == [] then (st, [])
    else
      var (st1, reply) := Step(p, env, st, ops[0]);
      if reply.Halted? then (st1, [reply])
      else
        var (st2, replies) := Run(p, env, st1, ops[1..]);
        (st2, [reply] + replies)
  }
}
