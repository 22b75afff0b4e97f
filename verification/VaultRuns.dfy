/** The theorems about whole runs of the vault. */
module VaultRuns {
  import opened Wrappers
  import opened Crypto
  import opened Metadata
  import opened VaultModel
  import opened VaultRefinement
  import opened VaultSteps

  /** What a run may ask: new ids are fresh, values are among `values`, and the
      writes of a real unlock succeed. */
  ghost predicate Admissible(p: Primitives, env: Environment, values: set<Bytes>, st: State, a: AState, op: Op)
    requires Shuffles(env)
  {
    match op
    case Create(_, id) => id !in a.entries
    case Set(_, value) => value in values
    case Unlock(_) => Clean(env, st.store.tick, Step(p, env, st, op).0.store.tick)
    case _ => true
  }

  ghost function TrackStep(p: Primitives, env: Environment, st: State, a: AState, op: Op): AState
    requires Shuffles(env)
  {
    var (st', reply) := Step(p, env, st, op);
    Track(p, env, a, op, reply, st.store.tick, st'.store.tick)
  }

  /** The hypotheses on the world shared by the theorems below. */
  ghost predicate World(p: Primitives, env: Environment) {
    Lawful(p) && Sound(env) && DeletesSucceed(env) && !NeedsRecoveryHash(Some(env.storeVersion))
  }

  lemma StepRefines(p: Primitives, env: Environment, values: set<Bytes>, st: State, a: AState, op: Op)
    requires World(p, env) && Refines(p, values, st, a) && Admissible(p, env, values, st, a, op)
    requires CollisionFree(p, values) || a.torn == map[]
    ensures var (st', reply) := Step(p, env, st, op);
      && Acceptable(p, env, a, op, reply, st.store.tick, st'.store.tick)
      && (if reply.Halted? then RefinesHalted(p, values, st', a)
          else Refines(p, values, st', TrackStep(p, env, st, a, op)))
  {
    hide Lawful, Coherent, AllSealed, NeedsRecoveryHash, UnlockVault, SetRecoveryRecipient, CreateItem, DeleteItem,
      GetItem, GetItemForPeer, SetItemValue, CollisionFree, Tear, Record, WritesOf;
    if a.key.None? {
      EmptyStep(p, env, values, st, op);
    } else {
      var id :| RefinesFor(p, values, id, st, a);
      KeyIsKept(p, values, id, st, a);
      match op {
        case Unlock(passphrase) => UnlockStep(p, env, values, id, st, a, passphrase);
        case Lock => LockStep(p, env, values, id, st, a);
        case SetRecovery(r) => SetRecoveryStep(p, env, values, id, st, a, r);
        case Create(description, i) => CreateStep(p, env, values, id, st, a, description, i);
        case Delete(i) => DeleteStep(p, env, values, id, st, a, i);
        case Get(i) => GetStep(p, env, values, id, st, a, i);
        case GetForPeer(i, peer) => GetForPeerStep(p, env, values, id, st, a, i, peer);
        case Set(i, value) => SetStep(p, env, values, id, st, a, i, value);
      }
      var (st', reply) := Step(p, env, st, op);
      if reply.Halted? {
        var rec :| RefinesFor(p, values, id, st', a.(recovery := rec, outdated := a.entries.Keys));
        assert Refines(p, values, st', a.(recovery := rec, outdated := a.entries.Keys));
      } else {
        assert RefinesFor(p, values, id, st', TrackStep(p, env, st, a, op));
        KeyIsKept(p, values, id, st', TrackStep(p, env, st, a, op));
      }
    }
  }

  lemma KeyIsKept(p: Primitives, values: set<Bytes>, id: Identity, st: State, a: AState)
    requires RefinesFor(p, values, id, st, a)
    ensures a.key.Some?
  {
    hide BaseOk, IndexOk, ValuesOk, AllSealed;
  }

  lemma LockStep(p: Primitives, env: Environment, values: set<Bytes>, id: Identity, st: State, a: AState)
    requires RefinesFor(p, values, id, st, a)
    ensures LockVault(st).1 == Ideal(p, env, a, Lock).1
    ensures RefinesFor(p, values, id, LockVault(st).0, Ideal(p, env, a, Lock).0)
  {
    hide BaseOk, IndexOk, ValuesOk, Sealed, HmacSecret, Index;
    var a' := Ideal(p, env, a, Lock).0;
    SameValues(p, values, id, st.store.files, st.store.files, a, a');
    SealedElsewhere(p, RecipientsOf(p, id, a), st.store.files, st.store.files, a, a', {});
  }

  /** Before the first unlock nothing else is possible. */
  lemma EmptyStep(p: Primitives, env: Environment, values: set<Bytes>, st: State, op: Op)
    requires World(p, env) && Refines(p, values, st, Empty) && Admissible(p, env, values, st, Empty, op)
    ensures var (st', reply) := Step(p, env, st, op);
      && Acceptable(p, env, Empty, op, reply, st.store.tick, st'.store.tick)
      && !reply.Halted?
      && Refines(p, values, st', TrackStep(p, env, st, Empty, op))
  {
    hide Lawful, RefinesFor, NeedsRecoveryHash, UnlockVault;
    if op.Unlock? {
      FirstUnlockStep(p, env, values, st, op.passphrase);
      var id := env.newIdentity(st.store.tick);
      var (st', reply) := Step(p, env, st, op);
      assert RefinesFor(p, values, id, st', Ideal(p, env, Empty, op).0);
    }
  }

  // -------------------------------------------------- runs with failing writes

  ghost predicate RunAdmissible(p: Primitives, env: Environment, values: set<Bytes>, st: State, a: AState, ops: seq<Op>)
    requires Shuffles(env)
    decreases |ops|
  {
    ops == [] ||
    (Admissible(p, env, values, st, a, ops[0]) &&
     var (st', reply) := Step(p, env, st, ops[0]);
     reply.Halted? || RunAdmissible(p, env, values, st', TrackStep(p, env, st, a, ops[0]), ops[1..]))
  }

  /** Every answer of the run is acceptable, and after every operation the files and
      the memory are what the abstract state says, also when the process stops. */
  ghost predicate RunConforms(p: Primitives, env: Environment, values: set<Bytes>, st: State, a: AState, ops: seq<Op>)
    requires Shuffles(env)
    decreases |ops|
  {
    Refines(p, values, st, a) &&
    (ops == [] ||
     (var (st', reply) := Step(p, env, st, ops[0]);
      Acceptable(p, env, a, ops[0], reply, st.store.tick, st'.store.tick) &&
      (if reply.Halted? then RefinesHalted(p, values, st', a)
       else RunConforms(p, env, values, st', TrackStep(p, env, st, a, ops[0]), ops[1..]))))
  }

  /** Whatever writes fail, a run never leaves the abstract map. Every operation during
      which no write fails gives exactly the ideal answer, reads in particular: an item is
      refused only if the last attempt to set it failed at its last write, and neither a
      rollback nor a re-encryption that meets failing writes costs a single value. Every
      other operation reports its failure, except that a change of the recovery recipient
      may be done with some values still encrypted to the earlier recipients; the next
      change that meets no failing write encrypts them all. */
  lemma {:induction false} RunsConform(p: Primitives, env: Environment, values: set<Bytes>, st: State, a: AState,
                                       ops: seq<Op>)
    requires World(p, env) && CollisionFree(p, values)
    requires Refines(p, values, st, a) && RunAdmissible(p, env, values, st, a, ops)
    ensures RunConforms(p, env, values, st, a, ops)
    decreases |ops|
  {
    hide Lawful, Refines, RefinesHalted, NeedsRecoveryHash, Step, CollisionFree, Acceptable;
    if ops != [] {
      StepRefines(p, env, values, st, a, ops[0]);
      var (st', reply) := Step(p, env, st, ops[0]);
      if !reply.Halted? {
        RunsConform(p, env, values, st', TrackStep(p, env, st, a, ops[0]), ops[1..]);
      }
    }
  }

  // ------------------------------------------------ runs on a working backend

  ghost predicate Reliable(env: Environment) {
    DeletesSucceed(env) && forall t :: !env.writeFails(t)
  }

  function IdealRun(p: Primitives, env: Environment, a: AState, ops: seq<Op>): (AState, seq<Reply>)
    decreases |ops|
  {
    if ops == [] then (a, [])
    else
      var (a', reply) := Ideal(p, env, a, ops[0]);
      var (a'', replies) := IdealRun(p, env, a', ops[1..]);
      (a'', [reply] + replies)
  }

  /** Ids of new items differ from the ids in use. */
  predicate FreshIds(p: Primitives, env: Environment, a: AState, ops: seq<Op>)
    decreases |ops|
  {
    ops == [] ||
    ((ops[0].Create? ==> ops[0].id !in a.entries) && FreshIds(p, env, Ideal(p, env, a, ops[0]).0, ops[1..]))
  }

  ghost predicate ValuesAmong(values: set<Bytes>, ops: seq<Op>) {
    forall op :: op in ops && op.Set? ==> op.value in values
  }

  /** Without failing writes nothing is torn anew, and no sealed item falls behind. */
  lemma IdealLeavesNoTraces(p: Primitives, env: Environment, a: AState, op: Op)
    ensures var (a', reply) := Ideal(p, env, a, op);
      && !reply.Halted?
      && a'.torn.Keys <= a.torn.Keys
      && (a.outdated <= a.torn.Keys ==> a'.outdated <= a'.torn.Keys)
  {
  }

  /** On a working backend the vault is the abstract map: every answer is the ideal
      one, and the final files and memory represent the ideal final state. */
  lemma {:induction false} RunsAreIdeal(p: Primitives, env: Environment, values: set<Bytes>, st: State, a: AState,
                                        ops: seq<Op>)
    requires World(p, env) && Reliable(env) && FreshIds(p, env, a, ops) && ValuesAmong(values, ops)
    requires Refines(p, values, st, a)
    requires CollisionFree(p, values) || a.torn == map[]
    ensures var (st', replies) := Run(p, env, st, ops);
      var (a', ideal) := IdealRun(p, env, a, ops);
      && replies == ideal
      && Refines(p, values, st', a')
      && a'.torn.Keys <= a.torn.Keys
      && (a.outdated <= a.torn.Keys ==> a'.outdated <= a'.torn.Keys)
    decreases |ops|
  {
    hide Lawful, Refines, RefinesHalted, NeedsRecoveryHash, Step, CollisionFree, Read;
    if ops != [] {
      assert ops[0] in ops;
      StepRefines(p, env, values, st, a, ops[0]);
      var (st1, reply) := Step(p, env, st, ops[0]);
      var a1 := Ideal(p, env, a, ops[0]).0;
      IdealLeavesNoTraces(p, env, a, ops[0]);
      assert forall op :: op in ops[1..] ==> op in ops;
      RunsAreIdeal(p, env, values, st1, a1, ops[1..]);
    }
  }
}
