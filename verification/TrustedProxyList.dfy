/** The list of trusted proxies, and which address of a forwarded-for header is believed
    (engine/net/TrustedProxyList.cpp). */
module TrustedProxyList {
  // An entry is an address or a CIDR block.
  // Parsing one address and parsing a number are calls into libraries: they are functions of their input
  // about which nothing is assumed.

  import opened Bits
  import opened Common
  import opened Strings

  const ADDRESS_BITS := 32
  const ADDRESSES := 0x1_0000_0000
  const BYTE_BITS := 8
  const BYTES := 256
  const MAPPED := "::ffff:"

  type Word32 = n: nat | n < ADDRESSES
  type Address6 = a: seq<Byte> | |a| == 16 witness seq(16, i => 0)

  datatype Library = Library(parse4: string -> Option<Word32>, parse6: string -> Option<Address6>, number: string -> Option<int>)

  // ----- what is configured -----

  /** A block of addresses: those whose first `prefix` bits are the ones of `addr`. */
  datatype Network = Net4(addr4: Word32, prefix: int) | Net6(addr6: Address6, prefix: int)

  predicate InRange(n: Network) {
    0 <= n.prefix <= if n.Net4? then 32 else 128
  }

  /** The block an entry of the configuration names; none when it is empty or malformed. */
  function NetworkOf(lib: Library, entry: string): (n: Option<Network>)
    ensures n.Some? ==> InRange(n.value) && (n.value.Net6? <==> ':' in entry[..Find(entry, '/', 0)])
  {
    var slash := Find(entry, '/', 0);
    var address := entry[..slash];
    if entry == "" then None
    else if slash < |entry| then
      match lib.number(entry[slash + 1..])
      case None => None
      case Some(prefix) =>
        if ':' in address then
          if prefix < 0 || prefix > 128 || lib.parse6(address).None? then None
          else Some(Net6(lib.parse6(address).value, prefix))
        else if prefix < 0 || prefix > 32 || lib.parse4(address).None? then None
        else Some(Net4(lib.parse4(address).value, prefix))
    else if ':' in address then
      if lib.parse6(address).None? then None else Some(Net6(lib.parse6(address).value, 128))
    else if lib.parse4(address).None? then None
    else Some(Net4(lib.parse4(address).value, 32))
  }

  /** Bit `j` of an address, counted from its most significant bit. */
  predicate Bit4(a: Word32, j: nat)
    requires j < 32
  {
    Bit(a, 31 - j)
  }

  predicate Bit6(a: Address6, j: nat)
    requires j < 128
  {
    Bit(a[j / 8], 7 - j % 8)
  }

  ghost predicate Covers4(n: Network, a: Word32)
    requires InRange(n)
  {
    n.Net4? && forall j: nat :: j < n.prefix ==> Bit4(a, j) == Bit4(n.addr4, j)
  }

  ghost predicate Covers6(n: Network, a: Address6)
    requires InRange(n)
  {
    n.Net6? && forall j: nat :: j < n.prefix ==> Bit6(a, j) == Bit6(n.addr6, j)
  }

  ghost predicate Listed4(lib: Library, entries: seq<string>, a: Word32) {
    exists k :: 0 <= k < |entries| && NetworkOf(lib, entries[k]).Some? && Covers4(NetworkOf(lib, entries[k]).value, a)
  }

  ghost predicate Listed6(lib: Library, entries: seq<string>, a: Address6) {
    exists k :: 0 <= k < |entries| && NetworkOf(lib, entries[k]).Some? && Covers6(NetworkOf(lib, entries[k]).value, a)
  }

  /** What it means to be trusted: some entry covers the address, where an address written as
      `::ffff:` and an IPv4 address also counts as that IPv4 address. */
  ghost predicate Trusted(lib: Library, entries: seq<string>, ip: string) {
    if ip == "" then false
    else if ':' in ip then
      && lib.parse6(ip).Some?
      && (|| Listed6(lib, entries, lib.parse6(ip).value)
          || (MAPPED <= ip && lib.parse4(ip[|MAPPED|..]).Some? && Listed4(lib, entries, lib.parse4(ip[|MAPPED|..]).value)))
    else
      lib.parse4(ip).Some? && Listed4(lib, entries, lib.parse4(ip).value)
  }

  lemma SlashAt(address: string, rest: string)
    requires '/' !in address
    ensures
      var entry := address + ("/" + rest);
      Find(entry, '/', 0) == |address| < |entry| && entry[..|address|] == address && entry[|address| + 1..] == rest
  {
    var entry := address + ("/" + rest);
    assert entry[0..|address|] == address;
    FindUnique(entry, '/', 0, |address|);
  }

  lemma NoSlashAt(address: string)
    requires '/' !in address
    ensures Find(address, '/', 0) == |address| && address[..|address|] == address
  {
    assert address[0..|address|] == address;
    FindUnique(address, '/', 0, |address|);
  }

  lemma OneListed4(lib: Library, entry: string, a: Word32)
    ensures Listed4(lib, [entry], a) <==> NetworkOf(lib, entry).Some? && Covers4(NetworkOf(lib, entry).value, a)
  {
    assert [entry][0] == entry;
  }

  lemma OneListed6(lib: Library, entry: string, a: Address6)
    ensures Listed6(lib, [entry], a) <==> NetworkOf(lib, entry).Some? && Covers6(NetworkOf(lib, entry).value, a)
  {
    assert [entry][0] == entry;
  }

  /** An IPv4 address, a slash and a number stand for the addresses that share so many leading bits; the
      entry stands for none when there is no such number of bits. */
  lemma Block4Means(lib: Library, address: string, number: string, own: Word32, prefix: int, a: Word32)
    requires '/' !in address && ':' !in address && lib.parse4(address) == Some(own) && lib.number(number) == Some(prefix)
    ensures Listed4(lib, [address + ("/" + number)], a) <==>
      0 <= prefix <= 32 && forall j: nat :: j < prefix ==> Bit4(a, j) == Bit4(own, j)
  {
    SlashAt(address, number);
    OneListed4(lib, address + ("/" + number), a);
  }

  lemma Block6Means(lib: Library, address: string, number: string, own: Address6, prefix: int, a: Address6)
    requires '/' !in address && ':' in address && lib.parse6(address) == Some(own) && lib.number(number) == Some(prefix)
    ensures Listed6(lib, [address + ("/" + number)], a) <==>
      0 <= prefix <= 128 && forall j: nat :: j < prefix ==> Bit6(a, j) == Bit6(own, j)
  {
    SlashAt(address, number);
    OneListed6(lib, address + ("/" + number), a);
  }

  /** An address alone stands for itself only. */
  lemma AloneMeans4(lib: Library, address: string, own: Word32, a: Word32)
    requires address != "" && '/' !in address && ':' !in address && lib.parse4(address) == Some(own)
    ensures Listed4(lib, [address], a) <==> a == own
  {
    NoSlashAt(address);
    OneListed4(lib, address, a);
    if Covers4(Net4(own, 32), a) {
      AddressesIsPow2();
      PrefixIsHighBits(a, own, 32);
      AllBitsAgree(a, own, ADDRESS_BITS);
    }
  }

  lemma AloneMeans6(lib: Library, address: string, own: Address6, a: Address6)
    requires '/' !in address && ':' in address && lib.parse6(address) == Some(own)
    ensures Listed6(lib, [address], a) <==> a == own
  {
    NoSlashAt(address);
    OneListed6(lib, address, a);
    if Covers6(Net6(own, 128), a) {
      AddressesIsPow2();
      forall i | 0 <= i < 16 ensures a[i] == own[i] {
        forall k: nat | 0 <= k < 8 ensures Bit(a[i], k) == Bit(own[i], k) {
          assert Bit6(a, 8 * i + (7 - k)) == Bit6(own, 8 * i + (7 - k));
        }
        AllBitsAgree(a[i], own[i], BYTE_BITS);
      }
    }
  }

  lemma AllBitsAgree(a: nat, b: nat, bits: nat)
    requires a < Pow2(bits) && b < Pow2(bits) && forall i: nat :: i < bits ==> Bit(a, i) == Bit(b, i)
    ensures a == b
  {
    forall i: nat ensures Bit(a, i) == Bit(b, i) {
      if i >= bits {
        BitsBounded(a, bits, i);
        BitsBounded(b, bits, i);
      }
    }
    SameBits(a, b);
  }

  // ----- masks -----

  /** Unsigned 32-bit complement. */
  function Not32(x: Word32): Word32 {
    ADDRESSES - 1 - x
  }

  function Mask4(prefix: int): Word32 {
    if prefix <= 0 then 0
    else if prefix >= 32 then 0xFFFF_FFFF
    else
      AddressesIsPow2();
      Pow2Monotone(ADDRESS_BITS - prefix, ADDRESS_BITS);
      Not32(Pow2(ADDRESS_BITS - prefix) - 1)
  }

  lemma AddressesIsPow2()
    ensures Pow2(ADDRESS_BITS) == ADDRESSES && Pow2(BYTE_BITS) == BYTES
  {
    var k := ADDRESS_BITS / 8;
    Pow2Of4(k);
    Pow2Sum(k, k);
    Pow2Sum(2 * k, 2 * k);
    Pow2Sum(4 * k, 4 * k);
  }

  /** The IPv4 mask leaves two addresses equal exactly when their first `prefix` bits agree. */
  lemma MaskKeepsPrefix(a: Word32, b: Word32, prefix: nat)
    requires prefix <= 32
    ensures And(a, Mask4(prefix)) == And(b, Mask4(prefix)) <==> Covers4(Net4(b, prefix), a)
  {
    AddressesIsPow2();
    SameHighBits(a, b, ADDRESS_BITS - prefix, ADDRESS_BITS);
    assert Mask4(prefix) == Pow2(ADDRESS_BITS) - Pow2(ADDRESS_BITS - prefix);
    PrefixIsHighBits(a, b, prefix);
  }

  lemma PrefixIsHighBits(a: Word32, b: Word32, prefix: nat)
    requires prefix <= 32
    ensures AgreeFrom(a, b, ADDRESS_BITS - prefix, ADDRESS_BITS) <==> Covers4(Net4(b, prefix), a)
  {
    if Covers4(Net4(b, prefix), a) {
      forall i: nat | ADDRESS_BITS - prefix <= i < ADDRESS_BITS ensures Bit(a, i) == Bit(b, i) {
        assert Bit4(a, 31 - i) == Bit4(b, 31 - i);
      }
    }
  }

  lemma FullMask(a: Word32)
    ensures And(a, 0xFFFF_FFFF) == a
  {
    AddressesIsPow2();
    HighMask(a, 0, ADDRESS_BITS);
    assert Pow2(ADDRESS_BITS) - Pow2(0) == 0xFFFF_FFFF;
  }

  /** One byte with the bits above the first `bits` of a prefix cut off: 0xFF << (8 - bits), truncated. */
  function Mask6(bits: nat): Byte
    requires 0 < bits < 8
  {
    (0xFF * Pow2(BYTE_BITS - bits)) % BYTES
  }

  lemma Mask6IsHighBits(bits: nat)
    requires 0 < bits < 8
    ensures Pow2(BYTE_BITS - bits) <= Pow2(BYTE_BITS) == BYTES
    ensures Mask6(bits) == Pow2(BYTE_BITS) - Pow2(BYTE_BITS - bits)
  {
    AddressesIsPow2();
    var p := Pow2(BYTE_BITS - bits);
    Pow2Monotone(BYTE_BITS - bits, BYTE_BITS);
    RemainderUnique(0xFF * p, BYTES, p - 1, BYTES - p);
  }

  // ----- an IPv6 block: whole bytes, then the bits left over -----

  predicate Matches6(addr: Address6, network: Address6, prefix: int)
    requires 0 <= prefix <= 128
  {
    var full := prefix / 8;
    var rest := prefix % 8;
    && addr[..full] == network[..full]
    && (rest > 0 ==> And(addr[full], Mask6(rest)) == And(network[full], Mask6(rest)))
  }

  /** Comparing whole bytes and then one masked byte compares exactly the first `prefix` bits. */
  lemma MatchesIsCovers(addr: Address6, network: Address6, prefix: int)
    requires 0 <= prefix <= 128
    ensures Matches6(addr, network, prefix) <==> Covers6(Net6(network, prefix), addr)
  {
    if Matches6(addr, network, prefix) {
      MatchesCovers(addr, network, prefix);
    }
    if Covers6(Net6(network, prefix), addr) {
      CoversMatches(addr, network, prefix);
    }
  }

  lemma LastByte(a: Byte, b: Byte, bits: nat)
    requires 0 < bits < 8
    ensures And(a, Mask6(bits)) == And(b, Mask6(bits)) <==> AgreeFrom(a, b, BYTE_BITS - bits, BYTE_BITS)
  {
    Mask6IsHighBits(bits);
    SameHighBits(a, b, BYTE_BITS - bits, BYTE_BITS);
  }

  lemma MatchesCovers(addr: Address6, network: Address6, prefix: int)
    requires 0 <= prefix <= 128 && Matches6(addr, network, prefix)
    ensures Covers6(Net6(network, prefix), addr)
  {
    var full := prefix / 8;
    forall j: nat | j < prefix ensures Bit6(addr, j) == Bit6(network, j) {
      if j / 8 < full {
        assert addr[..full][j / 8] == network[..full][j / 8];
      } else {
        LastByte(addr[full], network[full], prefix % 8);
      }
    }
  }

  lemma CoversMatches(addr: Address6, network: Address6, prefix: int)
    requires 0 <= prefix <= 128 && Covers6(Net6(network, prefix), addr)
    ensures Matches6(addr, network, prefix)
  {
    var full, rest := prefix / 8, prefix % 8;
    forall i | 0 <= i < full ensures addr[i] == network[i] {
      BitsOfByte(addr, network, prefix, i, 0);
      AddressesIsPow2();
      ShiftedSame(addr[i], network[i], 0, BYTE_BITS);
    }
    if rest > 0 {
      BitsOfByte(addr, network, prefix, full, BYTE_BITS - rest);
      LastByte(addr[full], network[full], rest);
    }
  }

  lemma BitsOfByte(addr: Address6, network: Address6, prefix: int, i: nat, from: nat)
    requires 0 <= prefix <= 128 && Covers6(Net6(network, prefix), addr)
    requires i < 16 && from <= 8 && 8 * i + 8 - from <= prefix
    ensures AgreeFrom(addr[i], network[i], from, BYTE_BITS)
  {
    forall t: nat | from <= t < BYTE_BITS ensures Bit(addr[i], t) == Bit(network[i], t) {
      var j := 8 * i + (7 - t);
      assert j / 8 == i && j % 8 == 7 - t;
      assert Bit6(addr, j) == Bit6(network, j);
    }
  }

  // ----- the stored entries -----

  datatype Entry4 = Entry4(addr: Word32, mask: Word32)
  datatype Entry6 = Entry6(addr: Address6, prefix: int)

  predicate Hit4(e: Entry4, a: Word32) {
    And(a, e.mask) == e.addr
  }

  ghost predicate Hit6(e: Entry6, a: Address6) {
    0 <= e.prefix <= 128 && Matches6(a, e.addr, e.prefix)
  }

  ghost predicate AnyHit4(es: seq<Entry4>, a: Word32) {
    exists k :: 0 <= k < |es| && Hit4(es[k], a)
  }

  ghost predicate AnyHit6(es: seq<Entry6>, a: Address6) {
    exists k :: 0 <= k < |es| && Hit6(es[k], a)
  }

  /** The stored form of a list of entries: IPv4 blocks already masked, IPv6 blocks as they are. */
  ghost predicate Stores(lib: Library, entries: seq<string>, es4: seq<Entry4>, es6: seq<Entry6>) {
    && (forall a :: AnyHit4(es4, a) <==> Listed4(lib, entries, a))
    && (forall a :: AnyHit6(es6, a) <==> Listed6(lib, entries, a))
    && (forall k :: 0 <= k < |es6| ==> 0 <= es6[k].prefix <= 128)
  }

  lemma NetworkHit(n: Network, a: Word32)
    requires InRange(n) && n.Net4?
    ensures Hit4(Entry4(And4(n.addr4, Mask4(n.prefix)), Mask4(n.prefix)), a) <==> Covers4(n, a)
  {
    MaskKeepsPrefix(a, n.addr4, n.prefix);
  }

  /** The masked address is again a 32-bit address. */
  function And4(a: Word32, mask: Word32): (r: Word32)
    ensures r == And(a, mask)
  {
    AndBelow(a, mask);
    And(a, mask)
  }

  lemma {:induction false} AndBelow(a: nat, b: nat)
    ensures And(a, b) <= a
  {
    if a != 0 && b != 0 {
      AndBelow(a / 2, b / 2);
    }
  }

  lemma {:induction false} ListedLast4(lib: Library, entries: seq<string>, entry: string, a: Word32)
    ensures Listed4(lib, entries + [entry], a) <==>
      || Listed4(lib, entries, a)
      || (NetworkOf(lib, entry).Some? && Covers4(NetworkOf(lib, entry).value, a))
  {
    var all := entries + [entry];
    assert all[|entries|] == entry;
    if Listed4(lib, entries, a) {
      var k :| 0 <= k < |entries| && NetworkOf(lib, entries[k]).Some? && Covers4(NetworkOf(lib, entries[k]).value, a);
      assert all[k] == entries[k];
    }
    if Listed4(lib, all, a) {
      var k :| 0 <= k < |all| && NetworkOf(lib, all[k]).Some? && Covers4(NetworkOf(lib, all[k]).value, a);
      if k < |entries| {
        assert all[k] == entries[k];
      }
    }
  }

  lemma {:induction false} ListedLast6(lib: Library, entries: seq<string>, entry: string, a: Address6)
    ensures Listed6(lib, entries + [entry], a) <==>
      || Listed6(lib, entries, a)
      || (NetworkOf(lib, entry).Some? && Covers6(NetworkOf(lib, entry).value, a))
  {
    var all := entries + [entry];
    assert all[|entries|] == entry;
    if Listed6(lib, entries, a) {
      var k :| 0 <= k < |entries| && NetworkOf(lib, entries[k]).Some? && Covers6(NetworkOf(lib, entries[k]).value, a);
      assert all[k] == entries[k];
    }
    if Listed6(lib, all, a) {
      var k :| 0 <= k < |all| && NetworkOf(lib, all[k]).Some? && Covers6(NetworkOf(lib, all[k]).value, a);
      if k < |entries| {
        assert all[k] == entries[k];
      }
    }
  }

  lemma HitLast4(es: seq<Entry4>, e: Entry4, a: Word32)
    ensures AnyHit4(es + [e], a) <==> AnyHit4(es, a) || Hit4(e, a)
  {
    var all := es + [e];
    assert all[|es|] == e;
    if AnyHit4(es, a) {
      var k :| 0 <= k < |es| && Hit4(es[k], a);
      assert all[k] == es[k];
    }
  }

  lemma HitLast6(es: seq<Entry6>, e: Entry6, a: Address6)
    ensures AnyHit6(es + [e], a) <==> AnyHit6(es, a) || Hit6(e, a)
  {
    var all := es + [e];
    assert all[|es|] == e;
    if AnyHit6(es, a) {
      var k :| 0 <= k < |es| && Hit6(es[k], a);
      assert all[k] == es[k];
    }
  }

  /** An entry that names no block changes nothing. */
  lemma StoresNothing(lib: Library, entries: seq<string>, entry: string, es4: seq<Entry4>, es6: seq<Entry6>)
    requires Stores(lib, entries, es4, es6) && NetworkOf(lib, entry).None?
    ensures Stores(lib, entries + [entry], es4, es6)
  {
    forall a: Word32 ensures AnyHit4(es4, a) <==> Listed4(lib, entries + [entry], a) { ListedLast4(lib, entries, entry, a); }
    forall a: Address6 ensures AnyHit6(es6, a) <==> Listed6(lib, entries + [entry], a) { ListedLast6(lib, entries, entry, a); }
  }

  lemma Stores4(lib: Library, entries: seq<string>, entry: string, es4: seq<Entry4>, es6: seq<Entry6>, e: Entry4)
    requires Stores(lib, entries, es4, es6)
    requires NetworkOf(lib, entry).Some? && NetworkOf(lib, entry).value.Net4?
    requires e.mask == Mask4(NetworkOf(lib, entry).value.prefix) && e.addr == And(NetworkOf(lib, entry).value.addr4, e.mask)
    ensures Stores(lib, entries + [entry], es4 + [e], es6)
  {
    var n := NetworkOf(lib, entry).value;
    forall a: Word32 ensures AnyHit4(es4 + [e], a) <==> Listed4(lib, entries + [entry], a) {
      ListedLast4(lib, entries, entry, a);
      HitLast4(es4, e, a);
      NetworkHit(n, a);
    }
    forall a: Address6 ensures AnyHit6(es6, a) <==> Listed6(lib, entries + [entry], a) { ListedLast6(lib, entries, entry, a); }
  }

  lemma Stores6(lib: Library, entries: seq<string>, entry: string, es4: seq<Entry4>, es6: seq<Entry6>, e: Entry6)
    requires Stores(lib, entries, es4, es6)
    requires NetworkOf(lib, entry) == Some(Net6(e.addr, e.prefix))
    ensures Stores(lib, entries + [entry], es4, es6 + [e])
  {
    forall a: Word32 ensures AnyHit4(es4, a) <==> Listed4(lib, entries + [entry], a) { ListedLast4(lib, entries, entry, a); }
    forall a: Address6 ensures AnyHit6(es6 + [e], a) <==> Listed6(lib, entries + [entry], a) {
      ListedLast6(lib, entries, entry, a);
      HitLast6(es6, e, a);
      MatchesIsCovers(a, e.addr, e.prefix);
    }
  }

  class TrustedList {
    const lib: Library
    var ipv4: seq<Entry4>
    var ipv6: seq<Entry6>
    /** The entries of the last configuration. */
    ghost var configured: seq<string>

    ghost predicate Valid()
      reads this
    {
      Stores(lib, configured, ipv4, ipv6)
    }

    constructor (lib: Library)
      ensures Valid() && configured == [] && this.lib.parse4 == lib.parse4 && this.lib.parse6 == lib.parse6 && this.lib.number == lib.number
    {
      this.lib := lib;
      ipv4, ipv6, configured := [], [], [];
    }

    method Configure(entries: seq<string>)
      modifies this
      ensures Valid() && configured == entries
    {
      ipv4, ipv6, configured := [], [], [];
      for i := 0 to |entries|
        invariant configured == entries[..i]
        invariant Valid()
      {
        Add(entries[i]);
      }
    }

    /** One turn of the configuration loop. */
    method Add(entry: string)
      requires Valid()
      modifies this
      ensures Valid() && configured == old(configured) + [entry]
    {
      var slash := Find(entry, '/', 0);
      if entry == "" {
        Skip(entry);
      } else if slash < |entry| {
        var ip := entry[..slash];
        var prefix := lib.number(entry[slash + 1..]);
        if prefix.None? {
          Skip(entry);
        } else if ':' in ip {
          var a := lib.parse6(ip);
          if prefix.value < 0 || prefix.value > 128 || a.None? {
            Skip(entry);
          } else {
            Push6(entry, Entry6(a.value, prefix.value));
          }
        } else {
          var a := lib.parse4(ip);
          if prefix.value < 0 || prefix.value > 32 || a.None? {
            Skip(entry);
          } else {
            Push4(entry, Entry4(And4(a.value, Mask4(prefix.value)), Mask4(prefix.value)));
          }
        }
      } else {
        assert entry[..slash] == entry;
        if ':' in entry {
          var a := lib.parse6(entry);
          if a.None? {
            Skip(entry);
          } else {
            Push6(entry, Entry6(a.value, 128));
          }
        } else {
          var a := lib.parse4(entry);
          if a.None? {
            Skip(entry);
          } else {
            FullMask(a.value);
            Push4(entry, Entry4(a.value, 0xFFFF_FFFF));
          }
        }
      }
    }

    ghost method Skip(entry: string)
      requires Valid() && NetworkOf(lib, entry).None?
      modifies this`configured
      ensures Valid() && configured == old(configured) + [entry]
    {
      StoresNothing(lib, configured, entry, ipv4, ipv6);
      configured := configured + [entry];
    }

    method Push4(ghost entry: string, e: Entry4)
      requires Valid() && NetworkOf(lib, entry).Some? && NetworkOf(lib, entry).value.Net4?
      requires e.mask == Mask4(NetworkOf(lib, entry).value.prefix) && e.addr == And(NetworkOf(lib, entry).value.addr4, e.mask)
      modifies this
      ensures Valid() && configured == old(configured) + [entry] && ipv4 == old(ipv4) + [e] && ipv6 == old(ipv6)
    {
      Stores4(lib, configured, entry, ipv4, ipv6, e);
      ipv4 := ipv4 + [e];
      configured := configured + [entry];
    }

    method Push6(ghost entry: string, e: Entry6)
      requires Valid() && NetworkOf(lib, entry) == Some(Net6(e.addr, e.prefix))
      modifies this
      ensures Valid() && configured == old(configured) + [entry] && ipv6 == old(ipv6) + [e] && ipv4 == old(ipv4)
    {
      Stores6(lib, configured, entry, ipv4, ipv6, e);
      ipv6 := ipv6 + [e];
      configured := configured + [entry];
    }

    /** An address is trusted exactly when a configured entry covers it. */
    method IsTrusted(ip: string) returns (yes: bool)
      requires Valid()
      ensures yes <==> Trusted(lib, configured, ip)
    {
      if ip == "" { return false; }
      if ':' in ip {
        var addr := lib.parse6(ip);
        if addr.None? { return false; }
        yes := Search6(addr.value);
        if yes { return; }
        if MAPPED <= ip {
          var mapped := lib.parse4(ip[|MAPPED|..]);
          if mapped.Some? {
            yes := Search4(mapped.value);
          }
        }
      } else {
        var addr := lib.parse4(ip);
        if addr.None? { return false; }
        yes := Search4(addr.value);
      }
    }

    method Search4(a: Word32) returns (yes: bool)
      ensures yes <==> AnyHit4(ipv4, a)
    {
      for i := 0 to |ipv4|
        invariant forall k :: 0 <= k < i ==> !Hit4(ipv4[k], a)
      {
        if And(a, ipv4[i].mask) == ipv4[i].addr {
          assert Hit4(ipv4[i], a);
          return true;
        }
      }
      return false;
    }

    method Search6(a: Address6) returns (yes: bool)
      requires forall k :: 0 <= k < |ipv6| ==> 0 <= ipv6[k].prefix <= 128
      ensures yes <==> AnyHit6(ipv6, a)
    {
      for i := 0 to |ipv6|
        invariant forall k :: 0 <= k < i ==> !Hit6(ipv6[k], a)
      {
        if Matches6(a, ipv6[i].addr, ipv6[i].prefix) {
          assert Hit6(ipv6[i], a);
          return true;
        }
      }
      return false;
    }
  }

  // ----- the forwarded-for header -----

  predicate Blank(c: char) {
    c == ' ' || c == '\t'
  }

  function TrimStart(s: string): (r: string)
    ensures |r| <= |s|
  {
    if s == "" || !Blank(s[0]) then s else TrimStart(s[1..])
  }

  function TrimEnd(s: string): (r: string)
    ensures |r| <= |s|
  {
    if s == "" || !Blank(s[|s| - 1]) then s else TrimEnd(s[..|s| - 1])
  }

  function Trim(s: string): string {
    TrimEnd(TrimStart(s))
  }

  predicate AllBlank(s: string) {
    forall i :: 0 <= i < |s| ==> Blank(s[i])
  }

  /** Trimming cuts a string between its first and its last character that are not blank. */
  lemma TrimCuts(s: string) returns (i: nat)
    ensures i + |Trim(s)| <= |s| && Trim(s) == s[i..i + |Trim(s)|]
    ensures AllBlank(s[..i]) && AllBlank(s[i + |Trim(s)|..])
    ensures Trim(s) != "" ==> !Blank(Trim(s)[0]) && !Blank(Trim(s)[|Trim(s)| - 1])
  {
    i := |s| - |TrimStart(s)|;
    TrimStartCuts(s);
    TrimEndCuts(TrimStart(s));
    var t := TrimStart(s);
    assert s[i..] == t;
    assert s[i + |Trim(s)|..] == t[|Trim(s)|..];
  }

  lemma {:induction false} TrimStartCuts(s: string)
    ensures var i := |s| - |TrimStart(s)|; AllBlank(s[..i]) && s[i..] == TrimStart(s)
    ensures TrimStart(s) != "" ==> !Blank(TrimStart(s)[0])
  {
    if s != "" && Blank(s[0]) {
      TrimStartCuts(s[1..]);
      var i := |s| - |TrimStart(s)|;
      assert s[..i] == [s[0]] + s[1..][..i - 1];
    }
  }

  lemma {:induction false} TrimEndCuts(s: string)
    ensures TrimEnd(s) <= s && AllBlank(s[|TrimEnd(s)|..])
    ensures TrimEnd(s) != "" ==> !Blank(TrimEnd(s)[|TrimEnd(s)| - 1])
  {
    if s != "" && Blank(s[|s| - 1]) {
      var short := s[..|s| - 1];
      TrimEndCuts(short);
      assert s[|TrimEnd(s)|..] == short[|TrimEnd(s)|..] + [s[|s| - 1]];
    }
  }

  /** A header is split at its commas; nothing follows a comma that ends it. */
  function Pieces(header: string): seq<string> {
    var comma := Find(header, ',', 0);
    if header == "" then []
    else if comma == |header| then [Trim(header)]
    else [Trim(header[..comma])] + Pieces(header[comma + 1..])
  }

  predicate ValidIp(lib: Library, ip: string) {
    lib.parse4(ip).Some? || lib.parse6(ip).Some?
  }

  /** An address to believe: it parses and no entry covers it. */
  ghost predicate Usable(lib: Library, entries: seq<string>, ip: string) {
    ip != "" && ValidIp(lib, ip) && !Trusted(lib, entries, ip)
  }

  /** How many pieces there are up to and including the rightmost address to believe. */
  ghost function UpToUsable(lib: Library, entries: seq<string>, ips: seq<string>): (n: nat)
    ensures n <= |ips|
    ensures n > 0 ==> Usable(lib, entries, ips[n - 1])
    ensures forall k :: n <= k < |ips| ==> !Usable(lib, entries, ips[k])
  {
    if ips == [] then 0
    else if Usable(lib, entries, ips[|ips| - 1]) then |ips|
    else UpToUsable(lib, entries, ips[..|ips| - 1])
  }

  /** The address taken from the pieces of a header: with a list, the rightmost one to believe, if
      there is one; otherwise the leftmost piece, if it is an address at all. */
  ghost function Chosen(lib: Library, trusted: Option<seq<string>>, ips: seq<string>): string {
    var n := if trusted.Some? then UpToUsable(lib, trusted.value, ips) else 0;
    if n > 0 then ips[n - 1]
    else if ips != [] && ValidIp(lib, ips[0]) then ips[0]
    else ""
  }

  ghost function Extracted(lib: Library, trusted: Option<seq<string>>, header: string): string {
    Chosen(lib, trusted, Pieces(header))
  }

  method ExtractForwardedIp(lib: Library, header: string, trusted: TrustedList?) returns (ip: string)
    requires trusted != null ==> trusted.Valid() && trusted.lib.parse4 == lib.parse4 && trusted.lib.parse6 == lib.parse6 && trusted.lib.number == lib.number
    ensures ip == Extracted(lib, if trusted == null then None else Some(trusted.configured), header)
  {
    if header == "" { return ""; }
    var ips := SplitAtCommas(header);
    if ips == [] { return ""; }
    if |ips| == 1 {
      SinglePiece(lib, if trusted == null then None else Some(trusted.configured), header);
      return if ValidIp(lib, ips[0]) then ips[0] else "";
    }
    if trusted != null {
      ghost var entries := trusted.configured;
      assert Same: trusted.lib == lib;
      var i := |ips| - 1;
      while i >= 0
        invariant -1 <= i < |ips|
        invariant forall k :: i < k < |ips| ==> !Usable(lib, entries, ips[k])
      {
        if ips[i] != "" && ValidIp(lib, ips[i]) {
          var known := trusted.IsTrusted(ips[i]);
          if !known {
            Rightmost(lib, entries, ips, i);
            return ips[i];
          }
        }
        i := i - 1;
      }
    }
    return if ValidIp(lib, ips[0]) then ips[0] else "";
  }

  /** The pieces found so far, and those of the text not looked at, are those of the header. */
  ghost predicate SplitUpTo(header: string, pos: nat, ips: seq<string>) {
    pos <= |header| && ips + Pieces(header[pos..]) == Pieces(header)
  }

  method SplitAtCommas(header: string) returns (ips: seq<string>)
    ensures ips == Pieces(header)
  {
    ips := [];
    var pos := 0;
    SplitStarts(header);
    while pos < |header|
      invariant SplitUpTo(header, pos, ips)
    {
      var piece, comma := NextPiece(header, pos, ips);
      ips := ips + [piece];
      if comma == |header| { return; }
      pos := comma + 1;
    }
    SplitEnds(header, ips);
  }

  lemma SplitStarts(header: string)
    ensures SplitUpTo(header, 0, [])
  {
    assert header[0..] == header;
  }

  lemma SplitEnds(header: string, ips: seq<string>)
    requires SplitUpTo(header, |header|, ips)
    ensures ips == Pieces(header)
  {
  }

  /** One turn of the splitting loop: the piece at `pos`, and the comma that ends it if there is one. */
  method NextPiece(header: string, pos: nat, ghost done: seq<string>) returns (piece: string, comma: nat)
    requires pos < |header| && SplitUpTo(header, pos, done)
    ensures pos <= comma <= |header|
    ensures comma == |header| ==> done + [piece] == Pieces(header)
    ensures comma < |header| ==> SplitUpTo(header, comma + 1, done + [piece])
  {
    var rest := header[pos..];
    var length := Find(rest, ',', 0);
    comma := pos + length;
    piece := Trim(header[pos..comma]);
    assert rest[..length] == header[pos..comma];
    if comma < |header| {
      assert rest[length + 1..] == header[comma + 1..];
      Regroup(done, [piece], Pieces(rest[length + 1..]));
    } else {
      assert rest[..length] == rest;
    }
  }

  lemma Rightmost(lib: Library, entries: seq<string>, ips: seq<string>, i: nat)
    requires i < |ips| && Usable(lib, entries, ips[i])
    requires forall k :: i < k < |ips| ==> !Usable(lib, entries, ips[k])
    ensures UpToUsable(lib, entries, ips) == i + 1
  {
  }

  lemma SinglePiece(lib: Library, trusted: Option<seq<string>>, header: string)
    requires |Pieces(header)| == 1
    ensures Extracted(lib, trusted, header) == if ValidIp(lib, Pieces(header)[0]) then Pieces(header)[0] else ""
  {
  }

  // ----- whoever writes in front of the header -----

  /** Splitting after text and a comma gives the text's pieces and then the header's. */
  lemma {:induction false} PiecesJoin(text: string, header: string)
    ensures Pieces(text + "," + header) == Pieces(text + ",") + Pieces(header)
    ensures Pieces(text + ",") != []
    decreases |text|
  {
    var comma := Find(text, ',', 0);
    FirstComma(text, header);
    FirstComma(text, "");
    if comma < |text| {
      var rest := text[comma + 1..];
      PiecesJoin(rest, header);
      PiecesJoin(rest, "");
      Regroup([Trim(text[..comma])], Pieces(rest + ","), Pieces(header));
      assert rest + "," + "" == rest + ",";
    }
    assert text + "," + "" == text + ",";
  }

  lemma {:induction false} FirstComma(text: string, header: string)
    ensures var all := text + "," + header; var comma := Find(text, ',', 0);
      && Pieces(all) == [Trim(text[..comma])] + Pieces(if comma < |text| then text[comma + 1..] + "," + header else header)
  {
    var all, comma := text + "," + header, Find(text, ',', 0);
    FindIsFirst(text, ',', 0);
    assert all[comma] == ',';
    assert all[0..comma] == text[0..comma];
    FindUnique(all, ',', 0, comma);
    if comma < |text| {
      assert all[comma + 1..] == text[comma + 1..] + "," + header;
    } else {
      assert all[comma + 1..] == header;
    }
  }

  lemma {:induction false} UpToJoin(lib: Library, entries: seq<string>, a: seq<string>, b: seq<string>)
    ensures UpToUsable(lib, entries, a + b) ==
      if UpToUsable(lib, entries, b) > 0 then |a| + UpToUsable(lib, entries, b) else UpToUsable(lib, entries, a)
    decreases |b|
  {
    if b == [] {
      assert a + b == a;
    } else {
      assert (a + b)[|a + b| - 1] == b[|b| - 1];
      assert (a + b)[..|a + b| - 1] == a + b[..|b| - 1];
      UpToJoin(lib, entries, a, b[..|b| - 1]);
    }
  }

  /** With a list, the answer is the piece to believe that has none to its right. */
  lemma RightmostIsExtracted(lib: Library, entries: seq<string>, header: string, i: nat)
    requires i < |Pieces(header)| && Usable(lib, entries, Pieces(header)[i])
    requires forall k :: i < k < |Pieces(header)| ==> !Usable(lib, entries, Pieces(header)[k])
    ensures Extracted(lib, Some(entries), header) == Pieces(header)[i]
  {
    Rightmost(lib, entries, Pieces(header), i);
  }

  ghost predicate HasUsable(lib: Library, entries: seq<string>, header: string) {
    exists k :: 0 <= k < |Pieces(header)| && Usable(lib, entries, Pieces(header)[k])
  }

  ghost predicate PrependHarmless(lib: Library, entries: seq<string>, header: string) {
    forall text: string :: Extracted(lib, Some(entries), text + "," + header) == Extracted(lib, Some(entries), header)
  }

  /** Text put in front of a header that holds an address to believe never changes the answer. */
  lemma PrependKeeps(lib: Library, entries: seq<string>, header: string, text: string)
    requires HasUsable(lib, entries, header)
    ensures Extracted(lib, Some(entries), text + "," + header) == Extracted(lib, Some(entries), header)
  {
    PiecesJoin(text, header);
    ChosenJoin(lib, entries, Pieces(text + ","), Pieces(header));
  }

  lemma ChosenJoin(lib: Library, entries: seq<string>, a: seq<string>, b: seq<string>)
    requires exists k :: 0 <= k < |b| && Usable(lib, entries, b[k])
    ensures Chosen(lib, Some(entries), a + b) == Chosen(lib, Some(entries), b)
  {
    UpToJoin(lib, entries, a, b);
  }

  /** As long as there is any address outside the list at all, these are the only headers safe from
      text in front of them: whatever else is in a header, such an address put in front is believed. */
  lemma PrependHarmlessIff(lib: Library, entries: seq<string>, header: string, outside: string)
    requires Usable(lib, entries, outside) && Trim(outside) == outside && ',' !in outside
    ensures PrependHarmless(lib, entries, header) <==> HasUsable(lib, entries, header)
    ensures !HasUsable(lib, entries, header) ==>
      Extracted(lib, Some(entries), outside + "," + header) == outside != Extracted(lib, Some(entries), header)
  {
    if HasUsable(lib, entries, header) {
      forall text: string ensures Extracted(lib, Some(entries), text + "," + header) == Extracted(lib, Some(entries), header) {
        PrependKeeps(lib, entries, header, text);
      }
    } else {
      OutsideWins(lib, entries, header, outside);
    }
  }

  lemma OutsideWins(lib: Library, entries: seq<string>, header: string, outside: string)
    requires Usable(lib, entries, outside) && Trim(outside) == outside && ',' !in outside
    requires !HasUsable(lib, entries, header)
    ensures Extracted(lib, Some(entries), outside + "," + header) == outside != Extracted(lib, Some(entries), header)
  {
    PiecesJoin(outside, header);
    OnePiece(outside);
    UpToJoin(lib, entries, [outside], Pieces(header));
    Rightmost(lib, entries, [outside], 0);
  }

  lemma OnePiece(text: string)
    requires Trim(text) == text && ',' !in text
    ensures Pieces(text + ",") == [text]
  {
    FirstComma(text, "");
    assert text + "," + "" == text + ",";
    assert text[..Find(text, ',', 0)] == text;
  }

  /** Without a list it is the other way round: text in front of a header decides alone. */
  lemma NoListLeftmostDecides(lib: Library, header: string, text: string)
    ensures Extracted(lib, None, text + "," + header) == Extracted(lib, None, text + ",")
  {
    PiecesJoin(text, header);
  }
}
