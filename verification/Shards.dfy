/** The sharded maps: the FNV hashes that select a shard, and the flat map a sharded one stands for. */
module Shards {
  import opened Net

  type byte = x: int | 0 <= x < 256

  const ShardCount: nat := 32
  const AddrBytes: nat := 16

  /** Exclusive or of the low n bits. */
  function Xor(a: nat, b: nat, n: nat): (r: nat)
    ensures r < Pow2(n)
  {
    if n == 0 then 0 else 2 * Xor(a / 2, b / 2, n - 1) + (if a % 2 != b % 2 then 1 else 0)
  }

  function XorByte(a: nat, b: nat): byte {
    assert Pow2(8) == 256;
    Xor(a, b, 8)
  }

  /** One round of 32-bit FNV-1a: a byte only reaches the low eight bits before the wrapping product. */
  function FnvRound(hash: nat, b: byte): nat {
    ((hash - hash % 256 + XorByte(hash, b)) * 16777619) % 0x1_0000_0000
  }

  function Fnv(bytes: seq<byte>): nat
    decreases |bytes|, 1
  {
    if bytes == [] then 2166136261 else FnvLast(bytes)
  }

  function FnvLast(bytes: seq<byte>): nat
    requires bytes != []
    decreases |bytes|, 0
  {
    FnvRound(Fnv(bytes[..|bytes| - 1]), bytes[|bytes| - 1])
  }

  /** The bytes of a domain name; names are ASCII. */
  function NameBytes(s: string): (bytes: seq<byte>)
    ensures |bytes| == |s|
  {
    if s == "" then [] else NameBytes(s[..|s| - 1]) + [s[|s| - 1] as int % 256]
  }

  /** The big-endian bytes of a number. */
  function Bytes(n: nat, len: nat): (s: seq<byte>)
    ensures |s| == len
  {
    if len == 0 then [] else Bytes(n / 256, len - 1) + [n % 256]
  }

  /** The number of an address in its 16-byte form, an IPv4 address being IPv4-mapped. */
  function Number16(a: Addr): nat {
    match a
    case Invalid => 0
    case V4(n) => 0xffff_0000_0000 + n
    case V6(n) => n
  }

  function HostShard(domain: string): (i: nat)
    ensures i < ShardCount
  {
    Fnv(NameBytes(domain)) % 32
  }

  function IpShard(a: Addr): (i: nat)
    ensures i < ShardCount
  {
    Fnv(Bytes(Number16(a.Unmap()), AddrBytes)) % 32
  }

  /** `flat` is the union of the host shards, and every domain lives only in the shard its hash selects. */
  ghost predicate HostUnion<V>(flat: map<string, V>, shards: seq<map<string, V>>) {
    && |shards| == ShardCount
    && (forall i, d {:trigger d in shards[i]} ::
          0 <= i < ShardCount && d in shards[i] ==> HostShard(d) == i && d in flat && flat[d] == shards[i][d])
    && (forall d {:trigger HostShard(d)} :: d in flat ==> d in shards[HostShard(d)])
  }

  /** The same for the address shards. */
  ghost predicate IpUnion<V>(flat: map<Addr, V>, shards: seq<map<Addr, V>>) {
    && |shards| == ShardCount
    && (forall i, a {:trigger a in shards[i]} ::
          0 <= i < ShardCount && a in shards[i] ==> IpShard(a) == i && a in flat && flat[a] == shards[i][a])
    && (forall a {:trigger IpShard(a)} :: a in flat ==> a in shards[IpShard(a)])
  }

  lemma HostPut<V>(flat: map<string, V>, shards: seq<map<string, V>>, d: string, v: V)
    requires HostUnion(flat, shards)
    ensures HostUnion(flat[d := v], shards[HostShard(d) := shards[HostShard(d)][d := v]])
  {
  }

  lemma IpPut<V>(flat: map<Addr, V>, shards: seq<map<Addr, V>>, a: Addr, v: V)
    requires IpUnion(flat, shards)
    ensures IpUnion(flat[a := v], shards[IpShard(a) := shards[IpShard(a)][a := v]])
  {
  }

  function SumSizes<K, V>(shards: seq<map<K, V>>): nat {
    if shards == [] then 0 else SumSizes(shards[..|shards| - 1]) + |shards[|shards| - 1]|
  }

  /** The domains of the first n shards. */
  ghost function FirstKeys<V>(flat: map<string, V>, n: nat): set<string> {
    set d | d in flat && HostShard(d) < n
  }

  lemma InNextShard<V>(flat: map<string, V>, shards: seq<map<string, V>>, n: nat, d: string)
    requires HostUnion(flat, shards) && 0 < n <= ShardCount
    ensures d in FirstKeys(flat, n) <==> d in FirstKeys(flat, n - 1) || d in shards[n - 1]
    ensures d in shards[n - 1] ==> d !in FirstKeys(flat, n - 1)
  {
  }

  lemma NextKeys<V>(flat: map<string, V>, shards: seq<map<string, V>>, n: nat)
    requires HostUnion(flat, shards) && 0 < n <= ShardCount
    ensures |FirstKeys(flat, n)| == |FirstKeys(flat, n - 1)| + |shards[n - 1]|
  {
    forall d: string {
      InNextShard(flat, shards, n, d);
    }
    DisjointSum(FirstKeys(flat, n - 1), shards[n - 1].Keys, FirstKeys(flat, n));
  }

  lemma DisjointSum<T(!new)>(s: set<T>, t: set<T>, u: set<T>)
    requires forall x :: x in u <==> x in s || x in t
    requires forall x :: x in t ==> x !in s
    ensures |u| == |s| + |t|
  {
    assert u == s + t;
  }

  lemma {:induction false} SumUpTo<V>(flat: map<string, V>, shards: seq<map<string, V>>, n: nat)
    requires HostUnion(flat, shards) && n <= ShardCount
    ensures SumSizes(shards[..n]) == |FirstKeys(flat, n)|
  {
    if n > 0 {
      SumUpTo(flat, shards, n - 1);
      assert shards[..n][..n - 1] == shards[..n - 1];
      NextKeys(flat, shards, n);
    } else {
      assert FirstKeys(flat, 0) == {};
    }
  }

  /** The sum of the shard sizes is the number of distinct domains. */
  lemma SumIsCount<V>(flat: map<string, V>, shards: seq<map<string, V>>)
    requires HostUnion(flat, shards)
    ensures SumSizes(shards) == |flat|
  {
    SumUpTo(flat, shards, ShardCount);
    assert shards[..ShardCount] == shards;
    assert FirstKeys(flat, ShardCount) == flat.Keys;
  }
}
