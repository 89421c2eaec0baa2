/** The versioned equipment registry: storage layout, hashing preimage and entry points. */
module EquipmentContract {
  import opened Basics
  import opened Host

  type Hasher = seq<Byte> -> Bytes32

  datatype Snapshot = Snapshot(equipment: Bytes32, version: U32, owner: Address, metadata: Bytes32, hash: Bytes32, createdAt: U64)

  /** Two families of keys: the latest version per id, and one snapshot per version. */
  datatype Store = Store(latest: map<Bytes32, U32>, snapshots: map<(Bytes32, U32), Snapshot>)

  // ---- Preimage ----

  /** "EQUP" in ASCII. */
  const SEPARATOR: seq<Byte> := [0x45, 0x51, 0x55, 0x50]

  /** `v >> 8*k`. */
  function ShiftRight(v: nat, k: nat): nat {
    if k == 0 then v else ShiftRight(v / 0x100, k - 1)
  }

  /** `(v >> 8*k) & 0xFF`. */
  function ByteAt(v: nat, k: nat): Byte {
    ShiftRight(v, k) % 0x100
  }

  function U32Be(v: U32): (r: seq<Byte>)
    ensures |r| == 4
  {
    [ByteAt(v, 3), ByteAt(v, 2), ByteAt(v, 1), ByteAt(v, 0)]
  }

  function U64Be(v: U64): (r: seq<Byte>)
    ensures |r| == 8
  {
    [ByteAt(v, 7), ByteAt(v, 6), ByteAt(v, 5), ByteAt(v, 4), ByteAt(v, 3), ByteAt(v, 2), ByteAt(v, 1), ByteAt(v, 0)]
  }

  function Preimage(id: Bytes32, owner: Address, metadata: Bytes32, createdAt: U64, version: U32): (r: seq<Byte>)
    ensures |r| == 80
  {
    SEPARATOR + id + metadata + U64Be(createdAt) + U32Be(version)
  }

  method CanonicalPreimage(id: Bytes32, owner: Address, metadata: Bytes32, createdAt: U64, version: U32) returns (out: seq<Byte>)
    ensures out == Preimage(id, owner, metadata, createdAt, version)
  {
    out := [];
    out := out + SEPARATOR;
    out := out + id;
    out := out + metadata;
    out := out + U64Be(createdAt);
    out := out + U32Be(version);
  }

  /** 256 to the power n. */
  function Limit(n: nat): nat {
    if n == 0 then 1 else 0x100 * Limit(n - 1)
  }

  /** A number below 256^n is determined by its n low bytes. */
  lemma {:induction false} BytesDetermine(v: nat, w: nat, n: nat)
    requires v < Limit(n) && w < Limit(n)
    requires forall k: nat | k < n :: ByteAt(v, k) == ByteAt(w, k)
    ensures v == w
  {
    if n > 0 {
      forall k: nat | k < n - 1 ensures ByteAt(v / 0x100, k) == ByteAt(w / 0x100, k) {
        assert ByteAt(v, k + 1) == ByteAt(w, k + 1);
      }
      assert ByteAt(v, 0) == ByteAt(w, 0);
      BytesDetermine(v / 0x100, w / 0x100, n - 1);
    }
  }

  lemma U32BeInjective(v: U32, w: U32)
    requires U32Be(v) == U32Be(w)
    ensures v == w
  {
    var a, b := U32Be(v), U32Be(w);
    forall k: nat | k < 4 ensures ByteAt(v, k) == ByteAt(w, k) {
      assert a[3 - k] == b[3 - k];
    }
    assert Limit(2) == 0x1_0000 && Limit(4) == 0x1_0000_0000;
    BytesDetermine(v, w, 4);
  }

  lemma U64BeInjective(v: U64, w: U64)
    requires U64Be(v) == U64Be(w)
    ensures v == w
  {
    var a, b := U64Be(v), U64Be(w);
    forall k: nat | k < 8 ensures ByteAt(v, k) == ByteAt(w, k) {
      assert a[7 - k] == b[7 - k];
    }
    assert Limit(2) == 0x1_0000 && Limit(4) == 0x1_0000_0000 && Limit(6) == 0x1_0000_0000_0000 && Limit(8) == 0x1_0000_0000_0000_0000;
    BytesDetermine(v, w, 8);
  }

  /** Peeling off the low byte. */
  lemma {:induction false} LowByte(v: nat, k: nat)
    ensures ShiftRight(v, k) == 0x100 * ShiftRight(v, k + 1) + ByteAt(v, k)
  {
    if k > 0 { LowByte(v / 0x100, k - 1); }
  }

  lemma {:induction false} ShiftedOut(v: nat, n: nat)
    requires v < Limit(n)
    ensures ShiftRight(v, n) == 0
  {
    if n > 0 { ShiftedOut(v / 0x100, n - 1); }
  }

  /** The number that bytes spell, most significant first. */
  function BigEndian(bs: seq<Byte>): nat {
    if |bs| == 0 then 0 else 0x100 * BigEndian(bs[..|bs| - 1]) + bs[|bs| - 1]
  }

  lemma BigEndianSnoc(bs: seq<Byte>, b: Byte)
    ensures BigEndian(bs + [b]) == 0x100 * BigEndian(bs) + b
  {
    assert (bs + [b])[..|bs|] == bs;
  }

  function Sum4(a: Byte, b: Byte, c: Byte, d: Byte): int {
    a as int * 0x100_0000 + b as int * 0x1_0000 + c as int * 0x100 + d as int
  }

  /** Four bytes more are worth 256^4 times what came before, and their own sum. */
  lemma FourMore(bs: seq<Byte>, a: Byte, b: Byte, c: Byte, d: Byte)
    ensures BigEndian(bs + [a, b, c, d]) ==
            0x1_0000_0000 * BigEndian(bs) + Sum4(a, b, c, d)
  {
    BigEndianSnoc(bs, a);
    BigEndianSnoc(bs + [a], b);
    BigEndianSnoc(bs + [a] + [b], c);
    BigEndianSnoc(bs + [a] + [b] + [c], d);
    assert bs + [a] + [b] + [c] + [d] == bs + [a, b, c, d];
  }

  /** The bytes of v from number n - 1 down to number 0. */
  function BytesDown(v: nat, n: nat): seq<Byte> {
    seq(n, i requires 0 <= i < n => ByteAt(v, n - 1 - i))
  }

  lemma {:induction false} BytesSpell(v: nat, n: nat, k: nat)
    requires k <= n && ShiftRight(v, n) == 0
    ensures BigEndian(BytesDown(v, n)[..n - k]) == ShiftRight(v, k)
    decreases n - k
  {
    if k < n {
      var bs := BytesDown(v, n);
      BytesSpell(v, n, k + 1);
      LowByte(v, k);
      assert bs[..n - k] == bs[..n - k - 1] + [ByteAt(v, k)];
      BigEndianSnoc(bs[..n - k - 1], ByteAt(v, k));
    }
  }

  /** The four bytes of a `u32` spell it, most significant first. */
  lemma U32BeSpells(v: U32)
    ensures BigEndian(U32Be(v)) == v
  {
    assert U32Be(v) == BytesDown(v, 4)[..4];
    assert Limit(2) == 0x1_0000 && Limit(4) == 0x1_0000_0000;
    ShiftedOut(v, 4);
    BytesSpell(v, 4, 0);
  }

  /** The eight bytes of a `u64` spell it, most significant first. */
  lemma U64BeSpells(v: U64)
    ensures BigEndian(U64Be(v)) == v
  {
    assert U64Be(v) == BytesDown(v, 8)[..8];
    assert Limit(2) == 0x1_0000 && Limit(4) == 0x1_0000_0000 && Limit(6) == 0x1_0000_0000_0000 && Limit(8) == 0x1_0000_0000_0000_0000;
    ShiftedOut(v, 8);
    BytesSpell(v, 8, 0);
  }

  /** The layout, byte by byte: "EQUP", id, metadata, time and version. */
  lemma PreimageLayout(id: Bytes32, owner: Address, md: Bytes32, at: U64, v: U32)
    ensures
      var p := Preimage(id, owner, md, at, v);
      && |p| == 80
      && p[..4] == [0x45, 0x51, 0x55, 0x50] && p[4..36] == id && p[36..68] == md
      && BigEndian(p[68..76]) == at && BigEndian(p[76..]) == v
  {
    var p := Preimage(id, owner, md, at, v);
    assert p[68..76] == U64Be(at) && p[76..] == U32Be(v);
    U64BeSpells(at);
    U32BeSpells(v);
  }

  /** Time and version as sums of their bytes. */
  lemma PreimageNumbers(id: Bytes32, owner: Address, md: Bytes32, at: U64, v: U32)
    ensures
      var p := Preimage(id, owner, md, at, v);
      && Sum4(p[68], p[69], p[70], p[71]) * 0x1_0000_0000 + Sum4(p[72], p[73], p[74], p[75]) == at
      && Sum4(p[76], p[77], p[78], p[79]) == v
  {
    var p := Preimage(id, owner, md, at, v);
    PreimageLayout(id, owner, md, at, v);
    assert p[68..76] == [p[68], p[69], p[70], p[71]] + [p[72], p[73], p[74], p[75]];
    assert p[76..] == [] + [p[76], p[77], p[78], p[79]];
    assert [] + [p[68], p[69], p[70], p[71]] == [p[68], p[69], p[70], p[71]];
    FourMore([], p[68], p[69], p[70], p[71]);
    FourMore([p[68], p[69], p[70], p[71]], p[72], p[73], p[74], p[75]);
    FourMore([], p[76], p[77], p[78], p[79]);
  }

  /** The preimage determines id, metadata, time and version, and nothing else: in
      particular it does not depend on the owner. */
  lemma PreimageDetermines(id: Bytes32, owner: Address, md: Bytes32, at: U64, v: U32,
                           id': Bytes32, owner': Address, md': Bytes32, at': U64, v': U32)
    ensures Preimage(id, owner, md, at, v) == Preimage(id', owner', md', at', v') <==>
            id == id' && md == md' && at == at' && v == v'
  {
    var p, q := Preimage(id, owner, md, at, v), Preimage(id', owner', md', at', v');
    if p == q {
      assert p[4..36] == id && q[4..36] == id';
      assert p[36..68] == md && q[36..68] == md';
      assert p[68..76] == U64Be(at) && q[68..76] == U64Be(at');
      assert p[76..] == U32Be(v) && q[76..] == U32Be(v');
      U64BeInjective(at, at');
      U32BeInjective(v, v');
    }
  }

  // ---- Entry points ----

  function MakeSnapshot(sha: Hasher, id: Bytes32, version: U32, owner: Address, metadata: Bytes32, createdAt: U64): Snapshot {
    Snapshot(id, version, owner, metadata, sha(Preimage(id, owner, metadata, createdAt, version)), createdAt)
  }

  function Put(st: Store, s: Snapshot): Store {
    Store(st.latest[s.equipment := s.version], st.snapshots[(s.equipment, s.version) := s])
  }

  /** The next version in a release build, where `u32` addition wraps. */
  function Bump(v: U32): U32 {
    if v == U32_MAX then 0 else v + 1
  }

  function Register(sha: Hasher, st: Store, env: Env, id: Bytes32, owner: Address, metadata: Bytes32): Result<Store> {
    if !env.Authorizes(owner) then Panic(Unauthorized)
    else if id in st.latest then Panic(EquipmentExists)
    else Ok(Put(st, MakeSnapshot(sha, id, 1, owner, metadata, env.now)))
  }

  function Transfer(sha: Hasher, st: Store, env: Env, id: Bytes32, newOwner: Address, caller: Address): Result<Store> {
    if !env.Authorizes(caller) then Panic(Unauthorized)
    else if id !in st.latest then Panic(EquipmentNotFound)
    else if (id, st.latest[id]) !in st.snapshots then Panic(SnapshotMissing)
    else
      var prev := st.snapshots[(id, st.latest[id])];
      if caller != prev.owner then Panic(NotOwner)
      else Ok(Put(st, MakeSnapshot(sha, id, Bump(st.latest[id]), newOwner, prev.metadata, env.now)))
  }

  function Get(st: Store, id: Bytes32): Result<Snapshot> {
    if id !in st.latest then Panic(EquipmentNotFound)
    else if (id, st.latest[id]) !in st.snapshots then Panic(SnapshotMissing)
    else Ok(st.snapshots[(id, st.latest[id])])
  }

  function GetVersion(st: Store, id: Bytes32, version: U32): Result<Snapshot> {
    if (id, version) !in st.snapshots then Panic(VersionNotFound)
    else Ok(st.snapshots[(id, version)])
  }

  class EquipmentRegistry {
    const sha256: Hasher
    var latest: map<Bytes32, U32>
    var snapshots: map<(Bytes32, U32), Snapshot>

    constructor (sha256: Hasher)
      ensures View() == Store(map[], map[]) && this.sha256 == sha256
    {
      this.sha256 := sha256;
      latest := map[];
      snapshots := map[];
    }

    function View(): Store
      reads this
    {
      Store(latest, snapshots)
    }

    method RegisterEquipment(env: Env, id: Bytes32, owner: Address, metadata: Bytes32) returns (r: Result<Bytes32>)
      modifies this
      ensures match Register(sha256, old(View()), env, id, owner, metadata)
              case Ok(st) => View() == st && r == Ok(st.snapshots[(id, 1)].hash)
              case Panic(t) => View() == old(View()) && r == Panic(t)
    {
      if !env.Authorizes(owner) { return Panic(Unauthorized); }
      if id in latest { return Panic(EquipmentExists); }
      var createdAt, version := env.now, 1;
      var preimage := CanonicalPreimage(id, owner, metadata, createdAt, version);
      var hash := sha256(preimage);
      var snap := Snapshot(id, version, owner, metadata, hash, createdAt);
      latest := latest[id := version];
      snapshots := snapshots[(id, version) := snap];
      r := Ok(hash);
    }

    method UpdateOwner(env: Env, id: Bytes32, newOwner: Address, caller: Address) returns (r: Result<Bytes32>)
      modifies this
      ensures match Transfer(sha256, old(View()), env, id, newOwner, caller)
              case Ok(st) => View() == st && r == Ok(st.snapshots[(id, st.latest[id])].hash)
              case Panic(t) => View() == old(View()) && r == Panic(t)
    {
      if !env.Authorizes(caller) { return Panic(Unauthorized); }
      if id !in latest { return Panic(EquipmentNotFound); }
      var latestVersion := latest[id];
      if (id, latestVersion) !in snapshots { return Panic(SnapshotMissing); }
      var prev := snapshots[(id, latestVersion)];
      if caller != prev.owner { return Panic(NotOwner); }
      var newVersion := Bump(latestVersion);
      var createdAt := env.now;
      var preimage := CanonicalPreimage(id, newOwner, prev.metadata, createdAt, newVersion);
      var hash := sha256(preimage);
      var snap := Snapshot(id, newVersion, newOwner, prev.metadata, hash, createdAt);
      latest := latest[id := newVersion];
      snapshots := snapshots[(id, newVersion) := snap];
      r := Ok(hash);
    }

    method GetEquipment(id: Bytes32) returns (r: Result<Snapshot>)
      ensures r == Get(View(), id)
    {
      if id !in latest { return Panic(EquipmentNotFound); }
      var key := (id, latest[id]);
      if key !in snapshots { return Panic(SnapshotMissing); }
      r := Ok(snapshots[key]);
    }

    method GetEquipmentVersion(id: Bytes32, version: U32) returns (r: Result<Snapshot>)
      ensures r == GetVersion(View(), id, version)
    {
      var key := (id, version);
      if key !in snapshots { return Panic(VersionNotFound); }
      r := Ok(snapshots[key]);
    }
  }
}

/** Version numbers: owners are counted in a `u32`, which wraps. */
module VersionNumbers {
  import opened Basics

  /** How many version numbers there are. */
  const VERSIONS: nat := 0x1_0000_0000

  /** The last of the owners 1..total whose version number is v; below 1 when there is none. */
  function Slot(total: nat, v: U32): (n: int)
    ensures total - VERSIONS < n <= total
  {
    total - (total - v) % VERSIONS
  }

  /** Quotient and remainder are determined. */
  lemma ModUnique(a: int, m: nat, q: int, r: nat)
    requires r < m && a == q * m + r
    ensures a % m == r
  {
    var d := q - a / m;
    assert d * m == a % m - r;
    if d > 0 { MultipleAtLeast(d, m); }
    if d < 0 { MultipleAtLeast(-d, m); }
  }

  lemma MultipleAtLeast(d: nat, m: nat)
    requires d > 0
    ensures d * m >= m
  {
  }

  lemma SlotNumber(total: nat, v: U32)
    requires Slot(total, v) >= 1
    ensures Slot(total, v) % VERSIONS == v
  {
    ModUnique(Slot(total, v), VERSIONS, (total - v) / VERSIONS, v);
  }

  /** And it is the last: no later owner has that number. */
  lemma SlotIsLast(total: nat, v: U32, n: nat)
    requires 1 <= n <= total && n % VERSIONS == v
    ensures n <= Slot(total, v)
  {
    ModUnique(n - v, VERSIONS, n / VERSIONS, 0);
    SlotGrows(n, total, v);
  }

  /** An owner numbered v keeps the slot until the number is used again. */
  lemma SlotStays(a: nat, b: nat, v: U32)
    requires a <= b < Slot(a, v) + VERSIONS
    ensures Slot(b, v) == Slot(a, v)
  {
    ModUnique(b - v, VERSIONS, (a - v) / VERSIONS, b - Slot(a, v));
  }

  /** The newest owner takes over exactly one version number. */
  lemma NextSlot(total: nat, v: U32)
    ensures Slot(total + 1, v) == if v == (total + 1) % VERSIONS then total + 1 else Slot(total, v)
  {
    if v == (total + 1) % VERSIONS {
      ModUnique(total + 1 - v, VERSIONS, (total + 1) / VERSIONS, 0);
    } else if total + 1 < Slot(total, v) + VERSIONS {
      SlotStays(total, total + 1, v);
    } else {
      ModUnique(total + 1, VERSIONS, (total - v) / VERSIONS + 1, v);
    }
  }

  lemma {:induction false} SlotGrows(a: nat, b: nat, v: U32)
    requires a <= b
    ensures Slot(a, v) <= Slot(b, v)
  {
    if a < b {
      SlotGrows(a, b - 1, v);
      NextSlot(b - 1, v);
    }
  }

  /** Before the counter wraps, version v belongs to the v-th owner. */
  lemma SlotInRange(total: nat, v: U32)
    requires total <= U32_MAX
    ensures Slot(total, v) >= 1 <==> 1 <= v <= total
    ensures Slot(total, v) >= 1 ==> Slot(total, v) == v
  {
    if v <= total {
      ModUnique(total - v, VERSIONS, 0, total - v);
    } else {
      ModUnique(total - v, VERSIONS, -1, total - v + VERSIONS);
    }
  }
}

/** The registry refines an append-only list of owners per equipment. */
module OwnershipLog {
  import opened Basics
  import opened Host
  import opened EquipmentContract
  import opened VersionNumbers

  datatype Call =
    | RegisterCall(id: Bytes32, owner: Address, metadata: Bytes32)
    | TransferCall(id: Bytes32, newOwner: Address, caller: Address)

  datatype Step = Step(call: Call, signers: set<Address>, now: U64) {
    function Env(): Env {
      Host.Env.Env(signers, None, now)
    }
  }

  type Run = seq<Step>

  // ---- Concrete runs ----

  function Effect(sha: Hasher, st: Store, step: Step): Result<Store> {
    match step.call
    case RegisterCall(id, owner, md) => Register(sha, st, step.Env(), id, owner, md)
    case TransferCall(id, newOwner, caller) => Transfer(sha, st, step.Env(), id, newOwner, caller)
  }

  function StoreAfter(sha: Hasher, h: Run): Store {
    if |h| == 0 then Store(map[], map[])
    else
      var st := StoreAfter(sha, h[..|h| - 1]);
      match Effect(sha, st, h[|h| - 1]) case Ok(n) => n case Panic(_) => st
  }

  // ---- The abstract log ----

  datatype Tenure = Tenure(owner: Address, since: U64)

  /** A piece of equipment: fixed metadata and every owner so far, oldest first. */
  datatype Item = Item(metadata: Bytes32, owners: seq<Tenure>)

  type Log = map<Bytes32, Item>

  predicate Accepts(log: Log, step: Step) {
    match step.call
    case RegisterCall(id, owner, _) => owner in step.signers && id !in log
    case TransferCall(id, _, caller) =>
      caller in step.signers && id in log && log[id].owners != [] && log[id].owners[|log[id].owners| - 1].owner == caller
  }

  function LogNext(log: Log, step: Step): Log {
    if !Accepts(log, step) then log
    else match step.call
      case RegisterCall(id, owner, md) => log[id := Item(md, [Tenure(owner, step.now)])]
      case TransferCall(id, newOwner, _) => log[id := log[id].(owners := log[id].owners + [Tenure(newOwner, step.now)])]
  }

  function LogAfter(h: Run): Log {
    if |h| == 0 then map[] else LogNext(LogAfter(h[..|h| - 1]), h[|h| - 1])
  }

  // ---- What the store holds, in every run ----

  predicate Numbered(log: Log, id: Bytes32, v: U32) {
    id in log && Slot(|log[id].owners|, v) >= 1
  }

  /** The snapshot of the n-th owner, under that owner's version number. */
  function SnapshotOf(sha: Hasher, id: Bytes32, item: Item, n: nat): Snapshot
    requires 1 <= n <= |item.owners|
  {
    MakeSnapshot(sha, id, n % VERSIONS, item.owners[n - 1].owner, item.metadata, item.owners[n - 1].since)
  }

  /** Under a version number, the last owner of that number. */
  ghost predicate HeldAt(sha: Hasher, st: Store, log: Log, id: Bytes32, v: U32) {
    && ((id, v) in st.snapshots <==> Numbered(log, id, v))
    && (Numbered(log, id, v) ==> st.snapshots[(id, v)] == SnapshotOf(sha, id, log[id], Slot(|log[id].owners|, v)))
  }

  ghost predicate Holds(sha: Hasher, st: Store, log: Log) {
    && (forall id: Bytes32 :: id in st.latest <==> id in log)
    && (forall id: Bytes32 | id in log :: |log[id].owners| >= 1 && st.latest[id] == |log[id].owners| % VERSIONS)
    && (forall id: Bytes32, v: U32 :: HeldAt(sha, st, log, id, v))
  }

  /** A new owner's snapshot takes one slot ... */
  lemma PutTakesSlot(sha: Hasher, st: Store, log: Log, id: Bytes32, item: Item, v: U32)
    requires HeldAt(sha, st, log, id, v) && |item.owners| == (if id in log then |log[id].owners| else 0) + 1
    requires id in log ==> log[id].metadata == item.metadata && log[id].owners <= item.owners
    ensures HeldAt(sha, Put(st, SnapshotOf(sha, id, item, |item.owners|)), log[id := item], id, v)
  {
    NextSlot(|item.owners| - 1, v);
  }

  /** ... and every other slot stays. */
  lemma PutHolds(sha: Hasher, st: Store, log: Log, id: Bytes32, item: Item)
    requires Holds(sha, st, log) && |item.owners| == (if id in log then |log[id].owners| else 0) + 1
    requires id in log ==> log[id].metadata == item.metadata && log[id].owners <= item.owners
    ensures Holds(sha, Put(st, SnapshotOf(sha, id, item, |item.owners|)), log[id := item])
  {
    var n, st' := log[id := item], Put(st, SnapshotOf(sha, id, item, |item.owners|));
    forall other: Bytes32, v: U32 ensures HeldAt(sha, st', n, other, v) {
      assert HeldAt(sha, st, log, other, v);
      if other == id { PutTakesSlot(sha, st, log, id, item, v); }
    }
  }

  /** The latest version is that of the last owner. */
  lemma LatestHeld(sha: Hasher, st: Store, log: Log, id: Bytes32)
    requires Holds(sha, st, log) && id in log
    ensures Get(st, id) == Ok(SnapshotOf(sha, id, log[id], |log[id].owners|))
  {
    var total := |log[id].owners|;
    NextSlot(total - 1, total % VERSIONS);
    assert HeldAt(sha, st, log, id, total % VERSIONS);
  }

  /** A `u32` addition and a modulus agree on the next version number. */
  lemma BumpIsNext(n: nat)
    ensures Bump(n % VERSIONS) == (n + 1) % VERSIONS
  {
    var r := Bump(n % VERSIONS);
    ModUnique(n + 1, VERSIONS, if r == 0 then n / VERSIONS + 1 else n / VERSIONS, r);
  }

  lemma StepHolds(sha: Hasher, st: Store, log: Log, step: Step)
    requires Holds(sha, st, log)
    ensures Effect(sha, st, step).Ok? <==> Accepts(log, step)
    ensures Effect(sha, st, step).Ok? ==> Holds(sha, Effect(sha, st, step).value, LogNext(log, step))
  {
    var id := step.call.id;
    if id in log { LatestHeld(sha, st, log, id); }
    if Accepts(log, step) {
      var n := LogNext(log, step);
      if id in log { BumpIsNext(|log[id].owners|); }
      PutHolds(sha, st, log, id, n[id]);
    }
  }

  /** After every run the registry holds, for each equipment of the owner log, the count of
      its owners modulo 2^32 as the latest version, and under each version number the last
      owner with that number. */
  lemma {:induction false} RegistryHoldsLog(sha: Hasher, h: Run)
    ensures Holds(sha, StoreAfter(sha, h), LogAfter(h))
  {
    if |h| > 0 {
      var p := h[..|h| - 1];
      RegistryHoldsLog(sha, p);
      StepHolds(sha, StoreAfter(sha, p), LogAfter(p), h[|h| - 1]);
    }
  }

  /** In every run, a call is accepted by the contract exactly when the log accepts it. */
  lemma AcceptedAlike(sha: Hasher, h: Run, i: nat)
    requires i < |h|
    ensures Effect(sha, StoreAfter(sha, h[..i]), h[i]).Ok? <==> Accepts(LogAfter(h[..i]), h[i])
  {
    RegistryHoldsLog(sha, h[..i]);
    StepHolds(sha, StoreAfter(sha, h[..i]), LogAfter(h[..i]), h[i]);
  }

  /** Which trap refuses a registration, read off the log ... */
  predicate RegisterRefusal(log: Log, step: Step, r: Result<Store>)
    requires step.call.RegisterCall?
  {
    var signed := step.call.owner in step.signers;
    && (r == Panic(Unauthorized) <==> !signed)
    && (r == Panic(EquipmentExists) <==> signed && step.call.id in log)
    && (r.Panic? ==> r.trap == Unauthorized || r.trap == EquipmentExists)
  }

  /** ... or a transfer: a missing snapshot is never the reason. */
  predicate TransferRefusal(log: Log, step: Step, r: Result<Store>)
    requires step.call.TransferCall?
  {
    var id, caller := step.call.id, step.call.caller;
    var signed := caller in step.signers;
    && (r == Panic(Unauthorized) <==> !signed)
    && (r == Panic(EquipmentNotFound) <==> signed && id !in log)
    && (r == Panic(NotOwner) <==>
        signed && id in log && log[id].owners != [] && log[id].owners[|log[id].owners| - 1].owner != caller)
    && (r.Panic? ==> r.trap == Unauthorized || r.trap == EquipmentNotFound || r.trap == NotOwner)
  }

  lemma RegisterRefused(sha: Hasher, st: Store, log: Log, step: Step)
    requires Holds(sha, st, log) && step.call.RegisterCall?
    ensures RegisterRefusal(log, step, Effect(sha, st, step))
  {
  }

  lemma TransferRefused(sha: Hasher, st: Store, log: Log, step: Step)
    requires Holds(sha, st, log) && step.call.TransferCall?
    ensures TransferRefusal(log, step, Effect(sha, st, step))
  {
    if step.call.id in log { LatestHeld(sha, st, log, step.call.id); }
  }

  /** In every run, the trap of a refused call. */
  lemma RefusedBecause(sha: Hasher, h: Run, step: Step)
    ensures
      var r := Effect(sha, StoreAfter(sha, h), step);
      if step.call.RegisterCall? then RegisterRefusal(LogAfter(h), step, r) else TransferRefusal(LogAfter(h), step, r)
  {
    RegistryHoldsLog(sha, h);
    if step.call.RegisterCall? {
      RegisterRefused(sha, StoreAfter(sha, h), LogAfter(h), step);
    } else {
      TransferRefused(sha, StoreAfter(sha, h), LogAfter(h), step);
    }
  }

  // ---- Refinement, before the counter wraps ----

  function Version(sha: Hasher, id: Bytes32, item: Item, v: U32): Snapshot
    requires 1 <= v <= |item.owners|
  {
    MakeSnapshot(sha, id, v, item.owners[v - 1].owner, item.metadata, item.owners[v - 1].since)
  }

  predicate HasVersion(log: Log, id: Bytes32, v: U32) {
    id in log && 1 <= v <= |log[id].owners|
  }

  ghost predicate Represents(sha: Hasher, st: Store, log: Log) {
    && (forall id: Bytes32 :: id in st.latest <==> id in log)
    && (forall id: Bytes32 | id in log :: |log[id].owners| >= 1 && st.latest[id] == |log[id].owners|)
    && (forall id: Bytes32, v: U32 :: (id, v) in st.snapshots <==> HasVersion(log, id, v))
    && (forall id: Bytes32, v: U32 | HasVersion(log, id, v) :: st.snapshots[(id, v)] == Version(sha, id, log[id], v))
  }

  /** No equipment has had more owners than there are version numbers. */
  predicate InRange(log: Log) {
    forall id | id in log :: |log[id].owners| <= U32_MAX
  }

  lemma HeldInRange(sha: Hasher, st: Store, log: Log, id: Bytes32, v: U32)
    requires HeldAt(sha, st, log, id, v) && InRange(log)
    ensures (id, v) in st.snapshots <==> HasVersion(log, id, v)
    ensures HasVersion(log, id, v) ==> st.snapshots[(id, v)] == Version(sha, id, log[id], v)
  {
    if id in log { SlotInRange(|log[id].owners|, v); }
  }

  lemma HoldsInRange(sha: Hasher, st: Store, log: Log)
    requires Holds(sha, st, log) && InRange(log)
    ensures Represents(sha, st, log)
  {
    forall id: Bytes32, v: U32
      ensures (id, v) in st.snapshots <==> HasVersion(log, id, v)
      ensures HasVersion(log, id, v) ==> st.snapshots[(id, v)] == Version(sha, id, log[id], v)
    {
      assert HeldAt(sha, st, log, id, v);
      HeldInRange(sha, st, log, id, v);
    }
  }

  /** The registry after a run represents the owner log of that run exactly when no
      equipment has run out of version numbers. */
  lemma RegistryRefinesLog(sha: Hasher, h: Run)
    ensures Represents(sha, StoreAfter(sha, h), LogAfter(h)) <==> InRange(LogAfter(h))
  {
    if InRange(LogAfter(h)) {
      RegistryHoldsLog(sha, h);
      HoldsInRange(sha, StoreAfter(sha, h), LogAfter(h));
    }
  }

  predicate Extends(a: Log, b: Log) {
    forall id | id in a :: id in b && a[id].metadata == b[id].metadata && a[id].owners <= b[id].owners
  }

  /** The log only grows: metadata never changes and owners are only appended. */
  lemma {:induction false} LogOnlyGrows(h: Run, i: nat)
    requires i <= |h|
    ensures Extends(LogAfter(h[..i]), LogAfter(h))
  {
    if i < |h| {
      var p := h[..|h| - 1];
      assert p[..i] == h[..i];
      LogOnlyGrows(p, i);
      assert Extends(LogAfter(p), LogAfter(h));
    } else {
      assert h[..i] == h;
    }
  }

  /** In every run the latest getter reads the last owner and no snapshot is ever missing;
      the version getter reads the last owner of that number, which before the counter
      wraps is the v-th owner. */
  lemma GettersReadLog(sha: Hasher, h: Run, id: Bytes32, v: U32)
    ensures
      var st, log := StoreAfter(sha, h), LogAfter(h);
      && Get(st, id) == (if id in log && |log[id].owners| >= 1 then Ok(SnapshotOf(sha, id, log[id], |log[id].owners|)) else Panic(EquipmentNotFound))
      && GetVersion(st, id, v) == (if Numbered(log, id, v) then Ok(SnapshotOf(sha, id, log[id], Slot(|log[id].owners|, v))) else Panic(VersionNotFound))
      && (InRange(log) ==>
            GetVersion(st, id, v) == if HasVersion(log, id, v) then Ok(Version(sha, id, log[id], v)) else Panic(VersionNotFound))
  {
    var st, log := StoreAfter(sha, h), LogAfter(h);
    RegistryHoldsLog(sha, h);
    RegistryRefinesLog(sha, h);
    if id in log { LatestHeld(sha, st, log, id); }
    assert HeldAt(sha, st, log, id, v);
  }

  /** A stored snapshot is never removed, and stays as it is until its version number is
      used again, 2^32 owners later: before the counter wraps, forever. */
  lemma SnapshotsAreImmutable(sha: Hasher, h: Run, i: nat, id: Bytes32, v: U32)
    requires i <= |h| && (id, v) in StoreAfter(sha, h[..i]).snapshots
    ensures (id, v) in StoreAfter(sha, h).snapshots
    ensures Numbered(LogAfter(h[..i]), id, v) && Numbered(LogAfter(h), id, v)
    ensures InRange(LogAfter(h)) || |LogAfter(h)[id].owners| < Slot(|LogAfter(h[..i])[id].owners|, v) + VERSIONS ==>
              StoreAfter(sha, h).snapshots[(id, v)] == StoreAfter(sha, h[..i]).snapshots[(id, v)]
  {
    LogOnlyGrows(h, i);
    RegistryHoldsLog(sha, h[..i]);
    RegistryHoldsLog(sha, h);
    var a, b := LogAfter(h[..i]), LogAfter(h);
    assert HeldAt(sha, StoreAfter(sha, h[..i]), a, id, v) && HeldAt(sha, StoreAfter(sha, h), b, id, v);
    SlotGrows(|a[id].owners|, |b[id].owners|, v);
    var n := Slot(|a[id].owners|, v);
    if |b[id].owners| < n + VERSIONS {
      SlotStays(|a[id].owners|, |b[id].owners|, v);
      assert SnapshotOf(sha, id, a[id], n) == SnapshotOf(sha, id, b[id], n);
    }
  }

  // ---- Who signed ----

  /** Step `step` on `before` was called and signed by the owner stored there as latest
      (by the new owner, for a registration) and made this snapshot. */
  predicate SignedFor(before: Store, step: Step, snap: Snapshot) {
    && snap.createdAt == step.now
    && match Get(before, snap.equipment)
       case Ok(prev) =>
         && step.call == TransferCall(snap.equipment, snap.owner, prev.owner) && prev.owner in step.signers
         && snap.version == Bump(prev.version) && snap.metadata == prev.metadata
       case Panic(_) =>
         && step.call == RegisterCall(snap.equipment, snap.owner, snap.metadata) && snap.owner in step.signers
         && snap.version == 1
  }

  /** An accepted call stores one snapshot, at the latest version, and nothing else. */
  lemma EffectSigned(sha: Hasher, st: Store, log: Log, step: Step, key: (Bytes32, U32))
    requires Holds(sha, st, log) && Effect(sha, st, step).Ok?
    requires key in Effect(sha, st, step).value.snapshots
    ensures
      var n := Effect(sha, st, step).value;
      if key.0 == step.call.id && key.1 == n.latest[key.0] then SignedFor(st, step, n.snapshots[key])
      else key in st.snapshots && n.snapshots[key] == st.snapshots[key]
  {
    var id := step.call.id;
    if id in log { LatestHeld(sha, st, log, id); }
  }

  /** Step i of the run wrote what is stored at (id, v) at the end. */
  predicate Wrote(sha: Hasher, h: Run, i: nat, id: Bytes32, v: U32) {
    && i < |h|
    && (id, v) in StoreAfter(sha, h).snapshots && (id, v) in StoreAfter(sha, h[..i + 1]).snapshots
    && StoreAfter(sha, h).snapshots[(id, v)] == StoreAfter(sha, h[..i + 1]).snapshots[(id, v)]
    && SignedFor(StoreAfter(sha, h[..i]), h[i], StoreAfter(sha, h).snapshots[(id, v)])
  }

  /** In every run, each stored snapshot was written by a call that the owner stored as
      latest just before had made and signed (the first owner, for a registration). */
  lemma {:induction false} EveryTransferSigned(sha: Hasher, h: Run, id: Bytes32, v: U32) returns (i: nat)
    requires (id, v) in StoreAfter(sha, h).snapshots
    ensures Wrote(sha, h, i, id, v)
  {
    var p, last := h[..|h| - 1], h[|h| - 1];
    var st, n := StoreAfter(sha, p), StoreAfter(sha, h);
    RegistryHoldsLog(sha, p);
    if Effect(sha, st, last).Ok? {
      EffectSigned(sha, st, LogAfter(p), last, (id, v));
    }
    if Effect(sha, st, last).Ok? && id == last.call.id && v == n.latest[id] {
      i := |h| - 1;
      assert h[..i + 1] == h;
    } else {
      i := EveryTransferSigned(sha, p, id, v);
      assert p[..i] == h[..i] && p[..i + 1] == h[..i + 1];
    }
  }

  /** So, before the counter wraps, version v + 1 was written by a call that the owner
      stored at version v made and signed. */
  lemma NextVersionSigned(sha: Hasher, h: Run, id: Bytes32, v: U32) returns (i: nat)
    requires InRange(LogAfter(h)) && 1 <= v < U32_MAX && (id, v + 1) in StoreAfter(sha, h).snapshots
    ensures Wrote(sha, h, i, id, v + 1) && (id, v) in StoreAfter(sha, h).snapshots
    ensures
      var before, after := StoreAfter(sha, h).snapshots[(id, v)], StoreAfter(sha, h).snapshots[(id, v + 1)];
      h[i].call == TransferCall(id, after.owner, before.owner) && before.owner in h[i].signers && after.metadata == before.metadata
  {
    i := EveryTransferSigned(sha, h, id, v + 1);
    var before := StoreAfter(sha, h[..i]);
    RegistryRefinesLog(sha, h);
    RegistryHoldsLog(sha, h[..i]);
    assert HasVersion(LogAfter(h), id, v + 1);
    if id in LogAfter(h[..i]) { LatestHeld(sha, before, LogAfter(h[..i]), id); }
    assert Get(before, id).Ok? && before.latest[id] == v;
    SnapshotsAreImmutable(sha, h, i, id, v);
  }

  predicate Appends(h: Run, i: nat, id: Bytes32, v: nat, item: Item)
    requires i < |h| && v < |item.owners|
  {
    && item.owners[v].since == h[i].now
    && if v == 0 then
         h[i].call == RegisterCall(id, item.owners[0].owner, item.metadata) && item.owners[0].owner in h[i].signers
       else
         h[i].call == TransferCall(id, item.owners[v].owner, item.owners[v - 1].owner) && item.owners[v - 1].owner in h[i].signers
  }

  /** Every entry of the log was put there by a call that the owner before it signed
      (the first owner, for the registration). */
  lemma {:induction false} EveryTenureSigned(h: Run, id: Bytes32, v: nat)
    requires id in LogAfter(h) && v < |LogAfter(h)[id].owners|
    ensures exists i: nat :: i < |h| && Appends(h, i, id, v, LogAfter(h)[id])
  {
    var p, last := h[..|h| - 1], h[|h| - 1];
    var a, b := LogAfter(p), LogAfter(h);
    if id in a && v < |a[id].owners| {
      EveryTenureSigned(p, id, v);
      LogOnlyGrows(h, |h| - 1);
      var i: nat :| i < |p| && Appends(p, i, id, v, a[id]);
      assert Appends(h, i, id, v, b[id]);
    } else {
      assert Appends(h, |h| - 1, id, v, b[id]);
    }
  }

  /** One transfer too many: at the last version number the next accepted transfer
      wraps the latest version to zero. */
  lemma WrapsAtLimit(sha: Hasher, st: Store, log: Log, step: Step)
    requires Holds(sha, st, log) && step.call.TransferCall? && Accepts(log, step)
    requires |log[step.call.id].owners| == U32_MAX
    ensures Effect(sha, st, step).Ok?
    ensures Effect(sha, st, step).value.latest[step.call.id] == 0
  {
    LatestHeld(sha, st, log, step.call.id);
  }

  function SelfRegistration(id: Bytes32, a: Address): Step {
    Step(RegisterCall(id, a, id), {a}, 0)
  }

  function SelfTransfer(id: Bytes32, a: Address): Step {
    Step(TransferCall(id, a, a), {a}, 0)
  }

  /** A registration followed by n transfers of the equipment to its own owner. */
  function SelfTransfers(id: Bytes32, a: Address, n: nat): Run {
    if n == 0 then [SelfRegistration(id, a)]
    else SelfTransfers(id, a, n - 1) + [SelfTransfer(id, a)]
  }

  predicate OwnedBy(log: Log, id: Bytes32, a: Address, n: nat) {
    id in log && |log[id].owners| == n >= 1 && log[id].owners[n - 1].owner == a
  }

  lemma TransferAppends(log: Log, id: Bytes32, a: Address, n: nat)
    requires OwnedBy(log, id, a, n)
    ensures OwnedBy(LogNext(log, SelfTransfer(id, a)), id, a, n + 1)
  {
  }

  lemma LogSnoc(p: Run, last: Step)
    ensures LogAfter(p + [last]) == LogNext(LogAfter(p), last)
  {
    assert (p + [last])[..|p|] == p;
  }

  lemma RegistrationOwns(log: Log, id: Bytes32, a: Address)
    requires id !in log
    ensures OwnedBy(LogNext(log, SelfRegistration(id, a)), id, a, 1)
  {
  }

  lemma FirstStep(step: Step)
    ensures LogAfter([step]) == LogNext(map[], step)
  {
    var h: Run := [step];
    assert h[..0] == [];
  }

  lemma OneMoreTransfer(id: Bytes32, a: Address, p: Run, n: nat)
    requires OwnedBy(LogAfter(p), id, a, n)
    ensures OwnedBy(LogAfter(p + [SelfTransfer(id, a)]), id, a, n + 1)
  {
    LogSnoc(p, SelfTransfer(id, a));
    TransferAppends(LogAfter(p), id, a, n);
  }

  lemma {:induction false} SelfTransfersAppend(id: Bytes32, a: Address, n: nat)
    ensures OwnedBy(LogAfter(SelfTransfers(id, a, n)), id, a, n + 1)
  {
    if n == 0 {
      FirstStep(SelfRegistration(id, a));
      RegistrationOwns(map[], id, a);
    } else {
      SelfTransfersAppend(id, a, n - 1);
      OneMoreTransfer(id, a, SelfTransfers(id, a, n - 1), n);
    }
  }

  /** So the representation really is lost in some run. */
  lemma RefinementCanFail(sha: Hasher, id: Bytes32, a: Address)
    ensures
      var h := SelfTransfers(id, a, U32_MAX);
      !Represents(sha, StoreAfter(sha, h), LogAfter(h))
  {
    SelfTransfersAppend(id, a, U32_MAX);
    RegistryRefinesLog(sha, SelfTransfers(id, a, U32_MAX));
  }

  function PreimageOf(s: Snapshot): seq<Byte> {
    Preimage(s.equipment, s.owner, s.metadata, s.createdAt, s.version)
  }

  /** Hashing has no collision among the snapshots of this store. */
  predicate NoCollision(sha: Hasher, st: Store) {
    forall k, l | k in st.snapshots && l in st.snapshots && sha(PreimageOf(st.snapshots[k])) == sha(PreimageOf(st.snapshots[l])) ::
      PreimageOf(st.snapshots[k]) == PreimageOf(st.snapshots[l])
  }

  /** Every stored snapshot carries its own key and the hash of its own preimage. */
  lemma SnapshotKeyed(sha: Hasher, h: Run, id: Bytes32, v: U32)
    requires (id, v) in StoreAfter(sha, h).snapshots
    ensures
      var s := StoreAfter(sha, h).snapshots[(id, v)];
      s.equipment == id && s.version == v && s.hash == sha(PreimageOf(s))
  {
    RegistryHoldsLog(sha, h);
    assert HeldAt(sha, StoreAfter(sha, h), LogAfter(h), id, v);
    SlotNumber(|LogAfter(h)[id].owners|, v);
  }

  /** In every run, different (id, version) pairs have different preimages, hence, without a collision,
      different stored hashes. */
  lemma SnapshotsDistinguished(sha: Hasher, h: Run, k: (Bytes32, U32), l: (Bytes32, U32))
    requires k in StoreAfter(sha, h).snapshots && l in StoreAfter(sha, h).snapshots && k != l
    ensures
      var st := StoreAfter(sha, h);
      && PreimageOf(st.snapshots[k]) != PreimageOf(st.snapshots[l])
      && (NoCollision(sha, st) ==> st.snapshots[k].hash != st.snapshots[l].hash)
  {
    RegistryHoldsLog(sha, h);
    SnapshotKeyed(sha, h, k.0, k.1);
    SnapshotKeyed(sha, h, l.0, l.1);
    var s, t := StoreAfter(sha, h).snapshots[k], StoreAfter(sha, h).snapshots[l];
    PreimageDetermines(s.equipment, s.owner, s.metadata, s.createdAt, s.version, t.equipment, t.owner, t.metadata, t.createdAt, t.version);
  }
}
