/** What the vault promises, as an abstract map from ids to entries, and the proof
    that every operation keeps the files and the memory in step with it, whatever
    backend writes fail on the way. */
module VaultRefinement {
  import opened Wrappers
  import opened Crypto
  import opened Metadata
  import opened Names
  import opened VaultModel

  datatype Entry = Entry(description: string, peer: Option<string>, value: Option<Bytes>)

  /** The vault as its users see it. Failing writes leave two kinds of traces. `torn`
      gives the content of the value files of items whose last `Set` replaced the file
      and then failed to record it. `outdated` are the items whose value file may still
      be encrypted to an earlier set of recipients; they can be read like any other. */
  datatype AState = AState(
    key: Option<Bytes>,
    open: bool,
    entries: map<Uuid, Entry>,
    recovery: Option<Recipient>,
    torn: map<Uuid, Bytes>,
    outdated: set<Uuid>)

  const Empty := AState(None, false, map[], None, map[], {})

  /** The answer to reading an item of the open vault. */
  function Read(a: AState, id: Uuid): Reply
    requires id in a.entries
  {
    if id in a.torn && a.entries[id].value.Some? then Failed else Got(a.entries[id].value)
  }

  /** The effect and answer of an operation during which no write fails. */
  function Ideal(p: Primitives, env: Environment, a: AState, op: Op): (AState, Reply) {
    match op
    case Unlock(passphrase) =>
      var key := KeyOf(p, env, passphrase);
      if a.open then (a, Done)
      else if a.key.None? || a.key.value == key then (a.(key := Some(key), open := true), Done)
      else (a, Failed)
    case Lock => if a.open then (a.(open := false), Done) else (a, Failed)
    case SetRecovery(r) =>
      if a.open then (a.(recovery := Some(r), outdated := a.torn.Keys), Done) else (a, Failed)
    case Create(description, id) =>
      if a.open then (a.(entries := a.entries[id := Entry(description, None, None)]), Done) else (a, Failed)
    case Delete(id) =>
      if a.open then
        (a.(entries := a.entries - {id}, torn := a.torn - {id}, outdated := a.outdated - {id}), Done)
      else (a, Failed)
    case Get(id) => (a, if a.open && id in a.entries then Read(a, id) else Failed)
    case GetForPeer(id, peer) =>
      if !a.open || id !in a.entries then (a, Failed)
      else
        var e := a.entries[id];
        if e.peer.Some? && e.peer.value != peer then (a, Failed)
        else (a.(entries := a.entries[id := e.(peer := Some(peer))]), Read(a, id))
    case Set(id, value) =>
      if !a.open || id !in a.entries || value == [] then (a, Failed)
      else (Record(a, id, value), Done)
  }

  /** The value has been written and recorded. */
  function Record(a: AState, id: Uuid, value: Bytes): AState
    requires id in a.entries
  {
    a.(entries := a.entries[id := a.entries[id].(value := Some(value))], torn := a.torn - {id},
       outdated := a.outdated - {id})
  }

  /** The value file has been written, but not the metadata. */
  function Tear(a: AState, id: Uuid, value: Bytes): AState
    requires id in a.entries
  {
    a.(torn := if a.entries[id].value == Some(value) then a.torn - {id} else a.torn[id := value],
       outdated := a.outdated - {id})
  }

  /** Backup, value and metadata; without a previous value there is no backup. */
  function WritesOf(e: Entry): nat {
    if e.value.Some? then 3 else 2
  }

  /** What becomes of an item when its value is written between two moments. It is torn
      exactly if it was the last of the writes that failed. */
  ghost function AfterSet(env: Environment, a: AState, id: Uuid, value: Bytes, from: nat, until: nat): AState
    requires id in a.entries
  {
    if Clean(env, from, until) then Record(a, id, value)
    else if until - from == WritesOf(a.entries[id]) then Tear(a, id, value)
    else a
  }

  /** Did the operation meet no failing write that matters to it? */
  ghost predicate Undisturbed(env: Environment, op: Op, from: nat, until: nat) {
    op.Delete? || Clean(env, from, until)
  }

  /** The abstract state after a step between two moments that gave `reply`. */
  ghost function Track(p: Primitives, env: Environment, a: AState, op: Op, reply: Reply, from: nat,
                       until: nat): AState
  {
    if Undisturbed(env, op, from, until) then Ideal(p, env, a, op).0
    else match op
      case Set(id, value) => if id in a.entries then AfterSet(env, a, id, value, from, until) else a
      case SetRecovery(r) => if reply.Done? then a.(recovery := Some(r), outdated := a.entries.Keys) else a
      case _ => a
  }

  /** Putting a recovery recipient on record takes two writes. When the second one fails
      the first file is deleted again, which is one more call to the backend. */
  predicate AttemptFails(env: Environment, t: nat) {
    env.writeFails(t) || env.writeFails(t + 1)
  }

  /** When the attempt after a failed one starts. */
  function NextAttempt(env: Environment, t: nat): nat {
    if env.writeFails(t) then t + 1 else t + 3
  }

  /** All of `n` attempts in a row fail. */
  predicate AttemptsFail(env: Environment, t: nat, n: nat)
    decreases n
  {
    n == 0 || (AttemptFails(env, t) && AttemptsFail(env, NextAttempt(env, t), n - 1))
  }

  /** The answer of a step between two moments: without failing writes the ideal one,
      otherwise a failure. Changing the recovery recipient is done as soon as the recipient
      is on record; it gives up for good exactly if there is a previous recipient and,
      after the first attempt, three attempts to put it back fail as well. */
  ghost predicate Acceptable(p: Primitives, env: Environment, a: AState, op: Op, reply: Reply, from: nat, until: nat) {
    if Undisturbed(env, op, from, until) then reply == Ideal(p, env, a, op).1
    else if !op.SetRecovery? then reply == Failed
    else if !AttemptFails(env, from) then reply == Done
    else if a.recovery.Some? && AttemptsFail(env, from, 4) then reply == Halted
    else reply == Failed
  }

  // ------------------------------------------------- files against entries

  ghost predicate SealedFor(p: Primitives, rs: seq<Recipient>, value: Bytes, data: Bytes) {
    exists n :: data == p.encrypt(rs, n, value)
  }

  /** The value file of one item, if it has one, was encrypted for `rs`. */
  ghost predicate Sealed(p: Primitives, rs: seq<Recipient>, files: Files, id: Uuid, v: Option<Bytes>) {
    match v
    case None => ValueFile(id) !in files
    case Some(value) => ValueFile(id) in files && SealedFor(p, rs, value, files[ValueFile(id)])
  }

  /** What the value file of one item decrypts to. */
  predicate Holds(p: Primitives, id: Identity, files: Files, i: Uuid, v: Option<Bytes>) {
    match v
    case None => ValueFile(i) !in files
    case Some(value) => ValueFile(i) in files && p.decrypt(id, files[ValueFile(i)]) == Some(value)
  }

  function Stored(a: AState, i: Uuid): Option<Bytes>
    requires i in a.entries
  {
    if i in a.torn then Some(a.torn[i]) else a.entries[i].value
  }

  predicate Matches(p: Primitives, item: Item, e: Entry) {
    && item.description == e.description
    && item.peer == e.peer
    && item.checksum == if e.value.None? then [] else Sum(p, e.value.value)
  }

  /** Identity, version and recovery files. Only `key` opens the identity. */
  ghost predicate BaseOk(p: Primitives, id: Identity, key: Bytes, recovery: Option<Recipient>, files: Files) {
    && IdentityFile in files
    && ReadIdentity(p, files, key) == Return(id)
    && (forall k :: k != key ==> ReadIdentity(p, files, k) == Fail)
    && VersionFile in files
    && CurrentVersion(p, files).Ok? && !NeedsRecoveryHash(CurrentVersion(p, files).value)
    && LoadRecovery(p, HmacSecret(p, id), files) == Ok(recovery)
  }

  ghost predicate IndexOk(p: Primitives, secret: Bytes, files: Files, entries: map<Uuid, Entry>) {
    && Readable(files)
    && Index(p, secret, files).Keys == entries.Keys
    && (forall id :: id in entries ==> Matches(p, Index(p, secret, files)[id], entries[id]))
  }

  /** Every value file decrypts to what the abstract state says; values come from `values`. */
  ghost predicate ValuesOk(p: Primitives, values: set<Bytes>, id: Identity, files: Files, a: AState) {
    && (forall i: Uuid :: ValueFile(i) in files ==> i in a.entries)
    && (forall i :: i in a.entries ==> Holds(p, id, files, i, Stored(a, i)))
    && (forall i :: i in a.entries && a.entries[i].value.Some? ==> a.entries[i].value.value in values)
    && (forall i :: i in a.torn ==> i in a.entries && a.torn[i] in values && a.entries[i].value != Some(a.torn[i]))
  }

  function MemoryFor(p: Primitives, id: Identity, key: Bytes, files: Files): Memory {
    Memory(Some(key), Some(HmacSecret(p, id)), Some(p.recipientOf(id)), Some(Index(p, HmacSecret(p, id), files)))
  }

  /** Everything except whom the value files are encrypted to. */
  ghost predicate Coherent(p: Primitives, values: set<Bytes>, id: Identity, st: State, a: AState) {
    && a.key.Some?
    && BaseOk(p, id, a.key.value, a.recovery, st.store.files)
    && IndexOk(p, HmacSecret(p, id), st.store.files, a.entries)
    && ValuesOk(p, values, id, st.store.files, a)
    && st.mem == if a.open then MemoryFor(p, id, a.key.value, st.store.files) else Locked
  }

  function RecipientsOf(p: Primitives, id: Identity, a: AState): seq<Recipient> {
    Recipients(p.recipientOf(id), a.recovery)
  }

  /** All value files but the outdated ones are encrypted for `rs`. */
  ghost predicate AllSealed(p: Primitives, rs: seq<Recipient>, files: Files, a: AState) {
    forall i :: i in a.entries && i !in a.outdated ==> Sealed(p, rs, files, i, Stored(a, i))
  }

  ghost predicate RefinesFor(p: Primitives, values: set<Bytes>, id: Identity, st: State, a: AState) {
    && Coherent(p, values, id, st, a)
    && AllSealed(p, RecipientsOf(p, id, a), st.store.files, a)
  }

  ghost predicate Refines(p: Primitives, values: set<Bytes>, st: State, a: AState) {
    if a.key.None? then a == Empty && st.store.files == map[] && st.mem == Locked
    else exists id :: RefinesFor(p, values, id, st, a)
  }

  /** The process was stopped while the recovery recipient was being put back: all but
      the recipients is as it was. */
  ghost predicate RefinesHalted(p: Primitives, values: set<Bytes>, st: State, a: AState) {
    exists rec :: Refines(p, values, st, a.(recovery := rec, outdated := a.entries.Keys))
  }

  ghost predicate CollisionFree(p: Primitives, values: set<Bytes>) {
    forall x, y :: x in values && y in values && Sum(p, x) == Sum(p, y) ==> x == y
  }

  // ------------------------------------------------------- effects of writes

  /** The files that belong to single items. */
  predicate IsItemFile(name: Name) {
    name.MetadataFile? || name.ValueFile? || name.BackupFile?
  }

  /** The same value files, except perhaps that of `id`. */
  ghost predicate SameValueFiles(files: Files, files': Files, except: set<Uuid>) {
    forall id {:trigger ValueFile(id)} :: id !in except ==> Find(files', ValueFile(id)) == Find(files, ValueFile(id))
  }

  lemma BaseAfterItemWrite(p: Primitives, id: Identity, key: Bytes, rec: Option<Recipient>, files: Files,
                           name: Name, data: Bytes)
    requires BaseOk(p, id, key, rec, files) && IsItemFile(name)
    ensures BaseOk(p, id, key, rec, files[name := data])
  {
    var files' := files[name := data];
    assert forall k :: ReadIdentity(p, files', k) == ReadIdentity(p, files, k);
  }

  lemma BaseAfterItemDelete(p: Primitives, id: Identity, key: Bytes, rec: Option<Recipient>, files: Files, name: Name)
    requires BaseOk(p, id, key, rec, files) && IsItemFile(name)
    ensures BaseOk(p, id, key, rec, files - {name})
  {
    var files' := files - {name};
    assert forall k :: ReadIdentity(p, files', k) == ReadIdentity(p, files, k);
  }

  lemma SumIsNotEmpty(p: Primitives, x: Bytes)
    requires Lawful(p)
    ensures Sum(p, x) != []
  {
    assert |Sum(p, x)| == 64;
  }

  /** Writing the backup copy changes nothing that is looked at. */
  lemma AfterBackup(p: Primitives, values: set<Bytes>, id: Identity, st: State, a: AState,
                    i: Uuid, stamp: string, data: Bytes, tick: nat)
    requires Coherent(p, values, id, st, a)
    ensures var files' := st.store.files[BackupFile(i, stamp) := data];
      && Coherent(p, values, id, State(Store(files', tick), st.mem), a)
      && Index(p, HmacSecret(p, id), files') == Index(p, HmacSecret(p, id), st.store.files)
      && SameValueFiles(st.store.files, files', {})
  {
    hide Index, Readable, BaseOk, Matches;
    IndexAfterOtherWrite(p, HmacSecret(p, id), st.store.files, BackupFile(i, stamp), data);
    BaseAfterItemWrite(p, id, a.key.value, a.recovery, st.store.files, BackupFile(i, stamp), data);
  }

  /** Only value files matter to the values. */
  lemma SameValues(p: Primitives, values: set<Bytes>, id: Identity, files: Files, files': Files, a: AState, a': AState)
    requires ValuesOk(p, values, id, files, a) && SameValueFiles(files, files', {})
    requires a'.entries == a.entries && a'.torn == a.torn
    ensures ValuesOk(p, values, id, files', a')
  {
    forall j: Uuid ensures Find(files', ValueFile(j)) == Find(files, ValueFile(j)) {}
    forall j | j in a.entries ensures Holds(p, id, files', j, Stored(a', j)) {
      assert Holds(p, id, files, j, Stored(a, j));
      assert Find(files', ValueFile(j)) == Find(files, ValueFile(j));
    }
  }

  lemma ValuesAfterReplace(p: Primitives, values: set<Bytes>, id: Identity, files: Files, a: AState, i: Uuid,
                           data: Bytes, value: Bytes)
    requires ValuesOk(p, values, id, files, a) && i in a.entries
    requires p.decrypt(id, data) == Some(value) && value in values
    ensures ValuesOk(p, values, id, files[ValueFile(i) := data], Tear(a, i, value))
  {
    var a' := Tear(a, i, value);
    forall j | j in a'.entries ensures Holds(p, id, files[ValueFile(i) := data], j, Stored(a', j)) {
      assert j != i ==> Stored(a', j) == Stored(a, j) && Holds(p, id, files, j, Stored(a, j));
    }
  }

  /** Replacing one value file. */
  lemma AfterValueWrite(p: Primitives, values: set<Bytes>, id: Identity, st: State, a: AState,
                        i: Uuid, data: Bytes, value: Bytes, tick: nat)
    requires Coherent(p, values, id, st, a) && i in a.entries
    requires p.decrypt(id, data) == Some(value) && value in values
    ensures var files' := st.store.files[ValueFile(i) := data];
      && Coherent(p, values, id, State(Store(files', tick), st.mem), Tear(a, i, value))
      && Index(p, HmacSecret(p, id), files') == Index(p, HmacSecret(p, id), st.store.files)
      && SameValueFiles(st.store.files, files', {i})
  {
    hide Index, Readable, BaseOk, Matches, ValuesOk;
    ValuesAfterReplace(p, values, id, st.store.files, a, i, data, value);
    IndexAfterOtherWrite(p, HmacSecret(p, id), st.store.files, ValueFile(i), data);
    BaseAfterItemWrite(p, id, a.key.value, a.recovery, st.store.files, ValueFile(i), data);
  }

  /** The entry of an item changes, its value file does not. */
  function Rewrite(a: AState, i: Uuid, e: Entry): AState {
    a.(entries := a.entries[i := e],
       torn := if i in a.torn && e.value == Some(a.torn[i]) then a.torn - {i} else a.torn)
  }

  lemma ValuesAfterRewrite(p: Primitives, values: set<Bytes>, id: Identity, files: Files, files': Files, a: AState,
                           i: Uuid, e: Entry)
    requires ValuesOk(p, values, id, files, a) && SameValueFiles(files, files', {})
    requires e.value.Some? ==> e.value.value in values
    requires i in a.torn || e.value == if i in a.entries then a.entries[i].value else None
    ensures ValuesOk(p, values, id, files', Rewrite(a, i, e))
  {
    var a' := Rewrite(a, i, e);
    forall j: Uuid ensures Find(files', ValueFile(j)) == Find(files, ValueFile(j)) {}
    assert i !in a.entries ==> ValueFile(i) !in files;
    forall j | j in a'.entries ensures Holds(p, id, files', j, Stored(a', j)) {
      assert j in a.entries ==> Stored(a', j) == Stored(a, j);
      assert Find(files', ValueFile(j)) == Find(files, ValueFile(j));
    }
  }

  /** Recording an item, in the file and in the memory. */
  lemma AfterMetadataWrite(p: Primitives, values: set<Bytes>, id: Identity, st: State, a: AState,
                           item: Item, e: Entry, tick: nat)
    requires Lawful(p) && Coherent(p, values, id, st, a) && a.open
    requires Matches(p, item, e)
    requires e.value.Some? ==> e.value.value in values
    requires item.id in a.torn || e.value == if item.id in a.entries then a.entries[item.id].value else None
    ensures var secret := HmacSecret(p, id);
      var files' := st.store.files[MetadataFile(item.id) := Frame(p, secret, item)];
      var mem' := st.mem.(items := Some(ItemsOf(st.mem)[item.id := item]));
      && Coherent(p, values, id, State(Store(files', tick), mem'), Rewrite(a, item.id, e))
      && SameValueFiles(st.store.files, files', {})
  {
    hide Index, Readable, BaseOk, Frame, HmacSecret, Matches, ValuesOk;
    var secret := HmacSecret(p, id);
    var files' := st.store.files[MetadataFile(item.id) := Frame(p, secret, item)];
    ValuesAfterRewrite(p, values, id, st.store.files, files', a, item.id, e);
    IndexAfterMetadataWrite(p, secret, st.store.files, item);
    BaseAfterItemWrite(p, id, a.key.value, a.recovery, st.store.files, MetadataFile(item.id), Frame(p, secret, item));
  }
}
