/** The laws asked of the primitives, the environment and the worker's choices can be met
    together, so no theorem that assumes them is empty. The instance encodes every
    value injectively; it is no more than a witness. */
module Consistency {
  import opened Wrappers
  import opened Crypto
  import opened Versions
  import opened VaultModel
  import opened VaultRefinement
  import opened VaultRuns
  import Scheduling

  // ------------------------------------------------- an injective encoding

  function NatCode(n: nat): Bytes {
    if n == 0 then [0] else [1] + NatCode(n - 1)
  }

  function ListCode(xs: seq<nat>): Bytes {
    if xs == [] then [0] else [1] + NatCode(xs[0]) + ListCode(xs[1..])
  }

  function Code(fields: seq<seq<nat>>): Bytes {
    if fields == [] then [0] else [1] + ListCode(fields[0]) + Code(fields[1..])
  }

  lemma {:induction false} NatCodeIsInjective(n: nat, m: nat, a: Bytes, b: Bytes)
    requires NatCode(n) + a == NatCode(m) + b
    ensures n == m && a == b
  {
    var u, v := NatCode(n) + a, NatCode(m) + b;
    assert u[0] == (if n == 0 then 0 else 1) && v[0] == (if m == 0 then 0 else 1);
    if n == 0 {
      assert u[1..] == a && v[1..] == b;
    } else {
      assert u[1..] == NatCode(n - 1) + a && v[1..] == NatCode(m - 1) + b;
      NatCodeIsInjective(n - 1, m - 1, a, b);
    }
  }

  lemma {:induction false} ListCodeIsInjective(xs: seq<nat>, ys: seq<nat>, a: Bytes, b: Bytes)
    requires ListCode(xs) + a == ListCode(ys) + b
    ensures xs == ys && a == b
  {
    var u, v := ListCode(xs) + a, ListCode(ys) + b;
    assert u[0] == (if xs == [] then 0 else 1) && v[0] == (if ys == [] then 0 else 1);
    if xs == [] {
      assert u[1..] == a && v[1..] == b;
    } else {
      assert u[1..] == NatCode(xs[0]) + (ListCode(xs[1..]) + a);
      assert v[1..] == NatCode(ys[0]) + (ListCode(ys[1..]) + b);
      NatCodeIsInjective(xs[0], ys[0], ListCode(xs[1..]) + a, ListCode(ys[1..]) + b);
      ListCodeIsInjective(xs[1..], ys[1..], a, b);
      assert xs == [xs[0]] + xs[1..] && ys == [ys[0]] + ys[1..];
    }
  }

  lemma {:induction false} CodeIsInjective(f: seq<seq<nat>>, g: seq<seq<nat>>)
    requires Code(f) == Code(g)
    ensures f == g
  {
    assert Code(f)[0] == (if f == [] then 0 else 1) && Code(g)[0] == (if g == [] then 0 else 1);
    if f != [] {
      assert Code(f)[1..] == ListCode(f[0]) + Code(f[1..]);
      assert Code(g)[1..] == ListCode(g[0]) + Code(g[1..]);
      ListCodeIsInjective(f[0], g[0], Code(f[1..]), Code(g[1..]));
      CodeIsInjective(f[1..], g[1..]);
      assert f == [f[0]] + f[1..] && g == [g[0]] + g[1..];
    }
  }

  function Chars(s: string): seq<nat> {
    seq(|s|, i requires 0 <= i < |s| => s[i] as nat)
  }

  function Octets(b: Bytes): seq<nat> {
    seq(|b|, i requires 0 <= i < |b| => b[i] as nat)
  }

  lemma CharsAreInjective(s: string, t: string)
    requires Chars(s) == Chars(t)
    ensures s == t
  {
    forall i | 0 <= i < |s| ensures |s| == |t| && s[i] == t[i] {
      assert Chars(s)[i] == Chars(t)[i];
    }
    assert |s| == |Chars(s)| && |t| == |Chars(t)|;
  }

  lemma OctetsAreInjective(a: Bytes, b: Bytes)
    requires Octets(a) == Octets(b)
    ensures a == b
  {
    assert |a| == |Octets(a)| && |b| == |Octets(b)|;
    forall i | 0 <= i < |a| ensures a[i] == b[i] {
      assert Octets(a)[i] == Octets(b)[i];
    }
  }

  // ------------------------------------------------------------ the fields

  function ItemFields(i: Item): seq<seq<nat>> {
    [Chars(i.id.text), Chars(i.description),
     if i.peer.None? then [] else [1] + Chars(i.peer.value),
     Octets(i.checksum),
     if i.modifiedAt < 0 then [1, -i.modifiedAt] else [0, i.modifiedAt]]
  }

  function PreIdField(p: PreId): seq<nat> {
    match p
    case Numeric(n) => [0, n]
    case Alphanumeric(s) => [1] + Chars(s)
  }

  function PreFields(ps: seq<PreId>): seq<seq<nat>> {
    seq(|ps|, i requires 0 <= i < |ps| => PreIdField(ps[i]))
  }

  function VersionFields(v: Version): seq<seq<nat>> {
    [[v.major, v.minor, v.patch], Chars(v.build)] + PreFields(v.pre)
  }

  function PairFields(k: Bytes, m: Bytes): seq<seq<nat>> {
    [Octets(k), Octets(m)]
  }

  function SealFields(rs: seq<Recipient>, m: Bytes): seq<seq<nat>> {
    [Octets(m)] + seq(|rs|, i requires 0 <= i < |rs| => Octets(rs[i].point))
  }

  lemma ItemFieldsAreInjective(i: Item, j: Item)
    requires Code(ItemFields(i)) == Code(ItemFields(j))
    ensures i == j
  {
    var f, g := ItemFields(i), ItemFields(j);
    CodeIsInjective(f, g);
    assert f[0] == g[0] && f[1] == g[1] && f[2] == g[2] && f[3] == g[3] && f[4] == g[4];
    CharsAreInjective(i.id.text, j.id.text);
    CharsAreInjective(i.description, j.description);
    OctetsAreInjective(i.checksum, j.checksum);
    assert f[4][0] == g[4][0] && f[4][1] == g[4][1];
    if i.peer.Some? {
      assert |f[2]| > 0 && j.peer.Some?;
      assert f[2][1..] == Chars(i.peer.value) && g[2][1..] == Chars(j.peer.value);
      CharsAreInjective(i.peer.value, j.peer.value);
    }
  }

  lemma PreIdFieldIsInjective(p: PreId, q: PreId)
    requires PreIdField(p) == PreIdField(q)
    ensures p == q
  {
    assert PreIdField(p)[0] == PreIdField(q)[0];
    if p.Numeric? {
      assert PreIdField(p)[1] == PreIdField(q)[1];
    } else {
      assert PreIdField(p)[1..] == Chars(p.s) && PreIdField(q)[1..] == Chars(q.s);
      CharsAreInjective(p.s, q.s);
    }
  }

  lemma VersionFieldsAreInjective(v: Version, w: Version)
    requires Code(VersionFields(v)) == Code(VersionFields(w))
    ensures v == w
  {
    var f, g := VersionFields(v), VersionFields(w);
    CodeIsInjective(f, g);
    assert f[0] == g[0] && f[0][0] == g[0][0] && f[0][1] == g[0][1] && f[0][2] == g[0][2];
    assert f[1] == g[1];
    CharsAreInjective(v.build, w.build);
    assert f[2..] == PreFields(v.pre) && g[2..] == PreFields(w.pre);
    assert |PreFields(v.pre)| == |v.pre| && |PreFields(w.pre)| == |w.pre|;
    forall i | 0 <= i < |v.pre| ensures v.pre[i] == w.pre[i] {
      assert PreFields(v.pre)[i] == PreFields(w.pre)[i];
      PreIdFieldIsInjective(v.pre[i], w.pre[i]);
    }
  }

  lemma PairFieldsAreInjective(k: Bytes, m: Bytes, k': Bytes, m': Bytes)
    requires Code(PairFields(k, m)) == Code(PairFields(k', m'))
    ensures k == k' && m == m'
  {
    var f, g := PairFields(k, m), PairFields(k', m');
    CodeIsInjective(f, g);
    assert f[0] == g[0] && f[1] == g[1];
    OctetsAreInjective(k, k');
    OctetsAreInjective(m, m');
  }

  lemma SealFieldsAreInjective(rs: seq<Recipient>, m: Bytes, rs': seq<Recipient>, m': Bytes)
    requires Code(SealFields(rs, m)) == Code(SealFields(rs', m'))
    ensures rs == rs' && m == m'
  {
    var f, g := SealFields(rs, m), SealFields(rs', m');
    CodeIsInjective(f, g);
    assert f[0] == g[0];
    OctetsAreInjective(m, m');
    assert |f| == |rs| + 1 && |g| == |rs'| + 1;
    forall i | 0 <= i < |rs| ensures rs[i] == rs'[i] {
      assert f[i + 1] == g[i + 1];
      OctetsAreInjective(rs[i].point, rs'[i].point);
    }
  }

  // ----------------------------------------------------------- the witness

  function HexDigit(d: int): byte
    requires 0 <= d < 16
  {
    if d < 10 then (48 + d) as byte else (87 + d) as byte
  }

  /** Lower-case hexadecimal text. */
  function Hex(b: Bytes): (r: Bytes)
    ensures |r| == 2 * |b|
  {
    if b == [] then [] else [HexDigit(b[0] as int / 16), HexDigit(b[0] as int % 16)] + Hex(b[1..])
  }

  ghost function ParseItem(b: Bytes): Option<Item> {
    if exists i :: Code(ItemFields(i)) == b then
      var i :| Code(ItemFields(i)) == b; Some(i)
    else None
  }

  ghost function ParseVersion(b: Bytes): Option<Version> {
    if exists v :: Code(VersionFields(v)) == b then
      var v :| Code(VersionFields(v)) == b; Some(v)
    else None
  }

  ghost function Unseal(k: Bytes, b: Bytes): Option<Bytes> {
    if exists m :: Code(PairFields(k, m)) == b then
      var m :| Code(PairFields(k, m)) == b; Some(m)
    else None
  }

  ghost function Decrypt(id: Identity, b: Bytes): Option<Bytes> {
    if exists rs, m :: Code(SealFields(rs, m)) == b && Recipient(id.scalar) in rs then
      var rs, m :| Code(SealFields(rs, m)) == b && Recipient(id.scalar) in rs; Some(m)
    else None
  }

  /** Tells apart texts of different lengths. */
  function Digest(m: Bytes): (d: Bytes)
    ensures |d| == 32 && d[31] as int == |m| % 256
  {
    seq(31, _ => 0) + [(|m| % 256) as byte]
  }

  ghost function Instance(): Primitives {
    Primitives(
      m => Digest(m), m => Hex(m), (k, m) => Digest(m),
      (k, n, m) => Code(PairFields(k, m)), (k, n, b) => Unseal(k, b),
      (rs, n, m) => Code(SealFields(rs, m)), (id, b) => Decrypt(id, b),
      (id: Identity) => Recipient(id.scalar),
      (r: Recipient) => r.point, b => Some(Recipient(b)),
      (id: Identity) => id.scalar, b => Some(Identity(b)),
      i => Code(ItemFields(i)), b => ParseItem(b),
      v => Code(VersionFields(v)), b => ParseVersion(b))
  }

  lemma HashLaws(k: Bytes, m: Bytes)
    ensures |Instance().sha256(m)| == 32 && |Instance().hmac(k, m)| == 32 && |Instance().hex(m)| == 2 * |m|
  {
  }

  lemma SealLaw(k: Bytes, k': Bytes, n: Bytes, m: Bytes)
    ensures var p := Instance(); p.unseal(k', n, p.seal(k, n, m)) == if k == k' then Some(m) else None
  {
    hide Code, PairFields, Unseal;
    UnsealPair(k, k', m);
  }

  lemma AgeLaw(rs: seq<Recipient>, n: Bytes, m: Bytes, id: Identity)
    ensures var p := Instance();
      p.decrypt(id, p.encrypt(rs, n, m)) == if p.recipientOf(id) in rs then Some(m) else None
  {
    hide Code, SealFields, Decrypt;
    DecryptSealed(rs, m, id);
  }

  lemma TextLaws(r: Recipient, id: Identity)
    ensures var p := Instance();
      p.parseRecipient(p.showRecipient(r)) == Some(r) && p.parseIdentity(p.showIdentity(id)) == Some(id)
  {
  }

  lemma JsonLaw(i: Item)
    ensures var p := Instance(); p.decodeItem(p.encodeItem(i)) == Some(i)
  {
    hide Code, ItemFields;
    ItemFieldsAreInjective(i, ParseItem(Code(ItemFields(i))).value);
  }

  lemma VersionLaw(v: Version)
    ensures var p := Instance(); p.parseVersion(p.showVersion(v)) == Some(v)
  {
    hide Code, VersionFields;
    VersionFieldsAreInjective(v, ParseVersion(Code(VersionFields(v))).value);
  }

  lemma InstanceIsLawful()
    ensures Lawful(Instance())
  {
    hide Instance;
    var p := Instance();
    forall m ensures |p.sha256(m)| == 32 { HashLaws(m, m); }
    forall m ensures |p.hex(m)| == 2 * |m| { HashLaws(m, m); }
    forall k, m ensures |p.hmac(k, m)| == 32 { HashLaws(k, m); }
    forall k, n, m ensures p.unseal(k, n, p.seal(k, n, m)) == Some(m) { SealLaw(k, k, n, m); }
    forall k, k', n, m | k != k' ensures p.unseal(k', n, p.seal(k, n, m)) == None { SealLaw(k, k', n, m); }
    forall rs, n, m, id
      ensures p.decrypt(id, p.encrypt(rs, n, m)) == if p.recipientOf(id) in rs then Some(m) else None
    {
      AgeLaw(rs, n, m, id);
    }
    forall r ensures p.parseRecipient(p.showRecipient(r)) == Some(r) { TextLaws(r, Identity([])); }
    forall id ensures p.parseIdentity(p.showIdentity(id)) == Some(id) { TextLaws(Recipient([]), id); }
    forall i ensures p.decodeItem(p.encodeItem(i)) == Some(i) { JsonLaw(i); }
    forall v ensures p.parseVersion(p.showVersion(v)) == Some(v) { VersionLaw(v); }
  }

  lemma UnsealPair(k: Bytes, k': Bytes, m: Bytes)
    ensures Unseal(k', Code(PairFields(k, m))) == if k == k' then Some(m) else None
  {
    hide Code, PairFields;
    var b := Code(PairFields(k, m));
    if m' :| Code(PairFields(k', m')) == b {
      PairFieldsAreInjective(k, m, k', m');
    }
    if Unseal(k', b).Some? {
      PairFieldsAreInjective(k, m, k', Unseal(k', b).value);
    }
  }

  lemma DecryptSealed(rs: seq<Recipient>, m: Bytes, id: Identity)
    ensures Decrypt(id, Code(SealFields(rs, m))) == if Recipient(id.scalar) in rs then Some(m) else None
  {
    hide Code, SealFields;
    var b := Code(SealFields(rs, m));
    if Decrypt(id, b).Some? {
      var rs', m' :| Code(SealFields(rs', m')) == b && Recipient(id.scalar) in rs' && Decrypt(id, b) == Some(m');
      SealFieldsAreInjective(rs, m, rs', m');
    }
  }

  // --------------------------------------------------------------- the world

  ghost function Listed<T(!new)>(s: set<T>): (order: seq<T>)
    ensures Enumerates(order, s)
    decreases |s|
  {
    if s == {} then []
    else
      var x :| x in s;
      [x] + Listed(s - {x})
  }

  lemma {:induction false} HexIsInjective(a: Bytes, b: Bytes)
    requires Hex(a) == Hex(b)
    ensures a == b
  {
    assert |a| == |b|;
    if a != [] {
      var u, v := Hex(a), Hex(b);
      assert u[0] == v[0] && u[1] == v[1];
      assert u[2..] == Hex(a[1..]) && v[2..] == Hex(b[1..]);
      HexIsInjective(a[1..], b[1..]);
      assert a[0] as int == a[0] as int / 16 * 16 + a[0] as int % 16;
      assert b[0] as int == b[0] as int / 16 * 16 + b[0] as int % 16;
      assert a == [a[0]] + a[1..] && b == [b[0]] + b[1..];
    }
  }

  lemma SomeValuesDoNotCollide(x: Bytes, y: Bytes)
    requires |x| % 256 != |y| % 256
    ensures CollisionFree(Instance(), {x, y})
  {
    var p := Instance();
    if Sum(p, x) == Sum(p, y) {
      HexIsInjective(Digest(x), Digest(y));
    }
  }

  ghost function WorkingEnvironment(): Environment {
    Environment(
      t => false, t => false, t => seq(12, _ => 0), t => [], t => Identity([]),
      t => Uuid("00000000-0000-0000-0000-000000000000"), t => 0, t => "",
      (t, ids) => Listed(ids), Version(1, 0, 0, [], ""), true)
  }

  lemma WorkingEnvironmentIsSound()
    ensures var env := WorkingEnvironment();
      Sound(env) && Reliable(env) && !NeedsRecoveryHash(Some(env.storeVersion))
  {
  }

  /** A lawful world with a working backend, and different values whose checksums differ. */
  lemma WorldsExist()
    ensures exists p, env, x, y :: World(p, env) && Reliable(env) && x != y && CollisionFree(p, {x, y})
  {
    hide Instance, Lawful, CollisionFree, WorkingEnvironment, Sound, Reliable, NeedsRecoveryHash;
    InstanceIsLawful();
    WorkingEnvironmentIsSound();
    SomeValuesDoNotCollide([1], [1, 2]);
    assert [1 as byte] != [1, 2];
    assert DeletesSucceed(WorkingEnvironment()) by { ReliableDeletes(WorkingEnvironment()); }
    assert World(Instance(), WorkingEnvironment()) && Reliable(WorkingEnvironment());
  }

  lemma ReliableDeletes(env: Environment)
    requires Reliable(env)
    ensures DeletesSucceed(env)
  {
  }

  lemma FairChoicesExist()
    ensures exists x :: Scheduling.Fair(x)
  {
    var x := Scheduling.Choices((c, path) => None, (t, names) => Listed(names), plan => plan);
    assert Scheduling.Fair(x);
  }
}
