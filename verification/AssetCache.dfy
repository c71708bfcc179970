/** The LRU cache of loaded assets with pinning (engine/asset/AssetCache.cpp). */
module AssetCache {
  // `lru` lists the cached paths, most recently used first.
  // An asset is pinned while somebody besides the cache holds it; who holds what during a call is a
  // parameter of that call.  The size of an asset belongs to the asset and can change while it is cached:
  // the cache asks for it whenever it adds or subtracts, and its counter of 64 bits wraps.

  import opened Bits
  import opened Common

  type Bytes = n: nat | n < WORD

  /** One asset object. */
  datatype Asset = Asset(id: nat, path: string)

  /** What memory_size() answers now. */
  type Sizes = map<Asset, Bytes>

  /** Session 0 is the lifetime of the application. */
  datatype Entry = Entry(asset: Asset, session: nat)

  type Entries = map<string, Entry>

  datatype Cache = Cache(max: Bytes, used: Bytes, lru: seq<string>, entries: Entries, sizes: Sizes)

  function Wrap(n: int): Bytes { n % WORD }

  lemma WrapTurns(n: int, turns: int)
    ensures Wrap(n + turns * WORD) == Wrap(n)
  {
    assert n + turns * WORD == (n / WORD + turns) * WORD + Wrap(n);
  }

  lemma WrapAgain(n: int, k: int)
    ensures Wrap(Wrap(n) + k) == Wrap(n + k) && Wrap(Wrap(n) - k) == Wrap(n - k)
  {
    assert Wrap(n) == n + (-(n / WORD)) * WORD;
    WrapTurns(n + k, -(n / WORD));
    WrapTurns(n - k, -(n / WORD));
  }

  // ----- What the operations do

  function SizeOf(sizes: Sizes, asset: Asset): Bytes {
    if asset in sizes then sizes[asset] else 0
  }

  function SizeAt(sizes: Sizes, entries: Entries, path: string): Bytes {
    if path in entries then SizeOf(sizes, entries[path].asset) else 0
  }

  function Without(lru: seq<string>, path: string): seq<string> {
    if lru == [] then [] else (if lru[0] == path then [] else [lru[0]]) + Without(lru[1..], path)
  }

  function Got(c: Cache, path: string): Cache {
    if path in c.entries then c.(lru := [path] + Without(c.lru, path)) else c
  }

  function Size(c: Cache, path: string): Bytes { SizeAt(c.sizes, c.entries, path) }

  predicate Pinned(entries: Entries, pinned: set<Asset>, path: string) {
    path in entries && entries[path].asset in pinned
  }

  /** The eviction walk, come down to position `n` with `kept` left behind it and the counter at `used`:
      what stays, and the counter at the end. */
  function Walk(c: Cache, pinned: set<Asset>, n: nat, kept: seq<string>, used: Bytes): (seq<string>, Bytes)
    requires n <= |c.lru|
    decreases n
  {
    if n == 0 || used <= c.max then (c.lru[..n] + kept, used)
    else if Pinned(c.entries, pinned, c.lru[n - 1]) then Walk(c, pinned, n - 1, [c.lru[n - 1]] + kept, used)
    else Walk(c, pinned, n - 1, kept, Wrap(used - Size(c, c.lru[n - 1])))
  }

  function Restrict(entries: Entries, lru: seq<string>): Entries {
    map path | path in entries && path in lru :: entries[path]
  }

  function Evicted(c: Cache, pinned: set<Asset>): Cache {
    var (lru, used) := Walk(c, pinned, |c.lru|, [], c.used);
    c.(used := used, lru := lru, entries := Restrict(c.entries, lru))
  }

  /** insert up to its eviction pass: the old entry's bytes are given back first, as many as it has now. */
  function Entered(c: Cache, asset: Asset, session: nat): Cache {
    c.(used := Wrap(Wrap(c.used - Size(c, asset.path)) + SizeOf(c.sizes, asset)),
       lru := [asset.path] + Without(c.lru, asset.path),
       entries := c.entries[asset.path := Entry(asset, session)])
  }

  /** The caller of insert holds the asset while it runs. */
  function Inserted(c: Cache, asset: Asset, session: nat, pinned: set<Asset>): Cache {
    Evicted(Entered(c, asset, session), pinned + {asset})
  }

  predicate OfSession(entries: Entries, path: string, session: nat) {
    path in entries && entries[path].session == session
  }

  function OthersOf(entries: Entries, lru: seq<string>, session: nat): seq<string> {
    if lru == [] then []
    else (if OfSession(entries, lru[0], session) then [] else [lru[0]]) + OthersOf(entries, lru[1..], session)
  }

  function SessionCleared(c: Cache, session: nat): Cache {
    if session == 0 then c
    else
      var lru := OthersOf(c.entries, c.lru, session);
      var freed := Total(c.sizes, c.entries, c.lru) - Total(c.sizes, c.entries, lru);
      c.(used := Wrap(c.used - freed), lru := lru, entries := Restrict(c.entries, lru))
  }

  // ----- The invariant

  /** The present sizes of the listed paths, added up. */
  function Total(sizes: Sizes, entries: Entries, lru: seq<string>): nat {
    if lru == [] then 0 else SizeAt(sizes, entries, lru[0]) + Total(sizes, entries, lru[1..])
  }

  /** The sum of memory_size() for all cached assets, which the counter is documented to be. */
  function Sum(c: Cache): nat { Total(c.sizes, c.entries, c.lru) }

  ghost predicate Distinct(lru: seq<string>) {
    forall i, j :: 0 <= i < j < |lru| ==> lru[i] != lru[j]
  }

  /** Map and list agree. */
  ghost predicate Valid(c: Cache) {
    && Distinct(c.lru)
    && (forall path :: path in c.lru <==> path in c.entries)
    && (forall path :: path in c.entries ==> c.entries[path].asset.path == path)
  }

  /** The counter is `growth` bytes short of the sum of the present sizes. */
  predicate Counts(c: Cache, growth: int) { c.used == Wrap(Sum(c) - growth) }

  lemma {:induction false} TotalConcat(sizes: Sizes, entries: Entries, a: seq<string>, b: seq<string>)
    ensures Total(sizes, entries, a + b) == Total(sizes, entries, a) + Total(sizes, entries, b)
  {
    if a == [] {
      assert a + b == b;
    } else {
      TotalConcat(sizes, entries, a[1..], b);
      assert (a + b)[1..] == a[1..] + b;
    }
  }

  lemma TotalOne(sizes: Sizes, entries: Entries, path: string)
    ensures Total(sizes, entries, [path]) == SizeAt(sizes, entries, path)
  {
    assert Total(sizes, entries, [path][1..]) == 0;
  }

  /** The total depends only on the entries of the listed paths. */
  lemma {:induction false} TotalSame(sizes: Sizes, e: Entries, f: Entries, lru: seq<string>)
    requires forall path :: path in lru ==> SizeAt(sizes, e, path) == SizeAt(sizes, f, path)
    ensures Total(sizes, e, lru) == Total(sizes, f, lru)
  {
    if lru != [] {
      TotalSame(sizes, e, f, lru[1..]);
    }
  }

  lemma {:induction false} WithoutFacts(lru: seq<string>, path: string)
    requires Distinct(lru)
    ensures Distinct(Without(lru, path))
    ensures forall p :: p in Without(lru, path) <==> p in lru && p != path
  {
    if lru != [] {
      WithoutFacts(lru[1..], path);
      assert lru[0] !in lru[1..];
      assert forall p :: p in lru <==> p == lru[0] || p in lru[1..];
    }
  }

  lemma {:induction false} TotalWithout(sizes: Sizes, entries: Entries, lru: seq<string>, path: string)
    requires Distinct(lru)
    ensures Total(sizes, entries, lru) == Total(sizes, entries, Without(lru, path))
         + if path in lru then SizeAt(sizes, entries, path) else 0
  {
    if lru != [] {
      TotalWithout(sizes, entries, lru[1..], path);
      assert lru[0] !in lru[1..];
      assert path in lru <==> path == lru[0] || path in lru[1..];
      TotalConcat(sizes, entries, if lru[0] == path then [] else [lru[0]], Without(lru[1..], path));
      TotalOne(sizes, entries, lru[0]);
    }
  }

  lemma GotValid(c: Cache, path: string)
    requires Valid(c)
    ensures Valid(Got(c, path)) && Sum(Got(c, path)) == Sum(c)
  {
    WithoutFacts(c.lru, path);
    if path in c.entries {
      TotalWithout(c.sizes, c.entries, c.lru, path);
      TotalConcat(c.sizes, c.entries, [path], Without(c.lru, path));
      TotalOne(c.sizes, c.entries, path);
    }
  }

  // ----- Eviction, stated without the walk

  /** The pinned paths of a list, in order. */
  function PinnedOnly(c: Cache, pinned: set<Asset>, lru: seq<string>): seq<string> {
    if lru == [] then []
    else (if Pinned(c.entries, pinned, lru[0]) then [lru[0]] else []) + PinnedOnly(c, pinned, lru[1..])
  }

  /** What is left when the walk has got down to position `cut`. */
  function LeftAt(c: Cache, pinned: set<Asset>, cut: nat): seq<string>
    requires cut <= |c.lru|
  {
    c.lru[..cut] + PinnedOnly(c, pinned, c.lru[cut..])
  }

  /** The bytes that are left there. */
  function TotalAt(c: Cache, pinned: set<Asset>, cut: nat): nat
    requires cut <= |c.lru|
  {
    Total(c.sizes, c.entries, LeftAt(c, pinned, cut))
  }

  /** What the counter shows there: every removal has subtracted a present size. */
  function CounterAt(c: Cache, pinned: set<Asset>, cut: nat): Bytes
    requires cut <= |c.lru|
  {
    Wrap(c.used - (Sum(c) - TotalAt(c, pinned, cut)))
  }

  /** The counter is above the limit at every position further back. */
  ghost predicate AboveBehind(c: Cache, pinned: set<Asset>, n: nat) {
    forall k :: n < k <= |c.lru| ==> CounterAt(c, pinned, k) > c.max
  }

  /** Eviction stops at the first position from the back where the counter is within the limit. */
  ghost predicate StopsAt(c: Cache, pinned: set<Asset>, cut: nat) {
    && cut <= |c.lru|
    && (cut == 0 || CounterAt(c, pinned, cut) <= c.max)
    && AboveBehind(c, pinned, cut)
  }

  lemma PinnedOnlyStep(c: Cache, pinned: set<Asset>, n: nat)
    requires 0 < n <= |c.lru|
    ensures PinnedOnly(c, pinned, c.lru[n - 1..])
         == (if Pinned(c.entries, pinned, c.lru[n - 1]) then [c.lru[n - 1]] else []) + PinnedOnly(c, pinned, c.lru[n..])
  {
    assert c.lru[n - 1..][1..] == c.lru[n..];
  }

  /** Passing one path takes its size off exactly when it is not pinned. */
  lemma LeftStep(c: Cache, pinned: set<Asset>, n: nat)
    requires 0 < n <= |c.lru|
    ensures Pinned(c.entries, pinned, c.lru[n - 1]) ==> LeftAt(c, pinned, n - 1) == LeftAt(c, pinned, n)
    ensures TotalAt(c, pinned, n - 1) == TotalAt(c, pinned, n)
         - if Pinned(c.entries, pinned, c.lru[n - 1]) then 0 else Size(c, c.lru[n - 1])
  {
    PinnedOnlyStep(c, pinned, n);
    var path, front, back := c.lru[n - 1], c.lru[..n - 1], PinnedOnly(c, pinned, c.lru[n..]);
    assert c.lru[..n] == front + [path];
    if Pinned(c.entries, pinned, path) {
      assert front + ([path] + back) == (front + [path]) + back;
    } else {
      TotalConcat(c.sizes, c.entries, front, back);
      TotalConcat(c.sizes, c.entries, front + [path], back);
      TotalConcat(c.sizes, c.entries, front, [path]);
      TotalOne(c.sizes, c.entries, path);
      assert [] + back == back;
    }
  }

  lemma CounterStep(c: Cache, pinned: set<Asset>, n: nat)
    requires 0 < n <= |c.lru|
    ensures CounterAt(c, pinned, n - 1) ==
      if Pinned(c.entries, pinned, c.lru[n - 1]) then CounterAt(c, pinned, n)
      else Wrap(CounterAt(c, pinned, n) - Size(c, c.lru[n - 1]))
  {
    LeftStep(c, pinned, n);
    WrapAgain(c.used - (Sum(c) - TotalAt(c, pinned, n)), Size(c, c.lru[n - 1]));
  }

  lemma CounterStart(c: Cache, pinned: set<Asset>)
    ensures LeftAt(c, pinned, |c.lru|) == c.lru && CounterAt(c, pinned, |c.lru|) == c.used
  {
    assert c.lru[..|c.lru|] == c.lru && c.lru[|c.lru|..] == [] && c.lru + [] == c.lru;
  }

  /** Where the walk stands: below position `n` nothing is touched yet, behind it only the pinned are left. */
  ghost predicate WalkAt(c: Cache, pinned: set<Asset>, n: nat, kept: seq<string>, used: Bytes) {
    n <= |c.lru| && kept == PinnedOnly(c, pinned, c.lru[n..]) && used == CounterAt(c, pinned, n)
  }

  lemma WalkEnds(c: Cache, pinned: set<Asset>, n: nat, kept: seq<string>, used: Bytes)
    requires WalkAt(c, pinned, n, kept, used) && (n == 0 || used <= c.max)
    ensures Walk(c, pinned, n, kept, used) == (LeftAt(c, pinned, n), used)
  {
  }

  lemma WalkPasses(c: Cache, pinned: set<Asset>, n: nat, kept: seq<string>, used: Bytes)
    requires WalkAt(c, pinned, n, kept, used) && n > 0 && used > c.max && Pinned(c.entries, pinned, c.lru[n - 1])
    ensures WalkAt(c, pinned, n - 1, [c.lru[n - 1]] + kept, used)
    ensures Walk(c, pinned, n, kept, used) == Walk(c, pinned, n - 1, [c.lru[n - 1]] + kept, used)
  {
    CounterStep(c, pinned, n);
    PinnedOnlyStep(c, pinned, n);
  }

  lemma WalkEvicts(c: Cache, pinned: set<Asset>, n: nat, kept: seq<string>, used: Bytes)
    requires WalkAt(c, pinned, n, kept, used) && n > 0 && used > c.max && !Pinned(c.entries, pinned, c.lru[n - 1])
    ensures WalkAt(c, pinned, n - 1, kept, Wrap(used - Size(c, c.lru[n - 1])))
    ensures Walk(c, pinned, n, kept, used) == Walk(c, pinned, n - 1, kept, Wrap(used - Size(c, c.lru[n - 1])))
  {
    CounterStep(c, pinned, n);
    PinnedOnlyStep(c, pinned, n);
    assert [] + kept == kept;
  }

  lemma AboveFrom(c: Cache, pinned: set<Asset>, n: nat)
    requires 0 < n <= |c.lru| && AboveBehind(c, pinned, n) && CounterAt(c, pinned, n) > c.max
    ensures AboveBehind(c, pinned, n - 1)
  {
  }

  lemma {:induction false} WalkStops(c: Cache, pinned: set<Asset>, n: nat, kept: seq<string>, used: Bytes)
    returns (cut: nat)
    requires WalkAt(c, pinned, n, kept, used) && AboveBehind(c, pinned, n)
    ensures StopsAt(c, pinned, cut)
    ensures Walk(c, pinned, n, kept, used) == (LeftAt(c, pinned, cut), CounterAt(c, pinned, cut))
    decreases n
  {
    if n == 0 || used <= c.max {
      WalkEnds(c, pinned, n, kept, used);
      cut := n;
    } else if Pinned(c.entries, pinned, c.lru[n - 1]) {
      WalkPasses(c, pinned, n, kept, used);
      AboveFrom(c, pinned, n);
      cut := WalkStops(c, pinned, n - 1, [c.lru[n - 1]] + kept, used);
    } else {
      WalkEvicts(c, pinned, n, kept, used);
      AboveFrom(c, pinned, n);
      cut := WalkStops(c, pinned, n - 1, kept, Wrap(used - Size(c, c.lru[n - 1])));
    }
  }

  lemma {:induction false} PinnedOnlyFacts(c: Cache, pinned: set<Asset>, lru: seq<string>)
    requires Distinct(lru)
    ensures forall p :: p in PinnedOnly(c, pinned, lru) <==> p in lru && Pinned(c.entries, pinned, p)
    ensures Distinct(PinnedOnly(c, pinned, lru))
  {
    if lru != [] {
      PinnedOnlyFacts(c, pinned, lru[1..]);
      assert lru[0] !in lru[1..];
      assert forall p :: p in lru <==> p == lru[0] || p in lru[1..];
    }
  }

  lemma LeftFacts(c: Cache, pinned: set<Asset>, cut: nat)
    requires Distinct(c.lru) && cut <= |c.lru|
    ensures Distinct(LeftAt(c, pinned, cut))
    ensures forall p :: p in LeftAt(c, pinned, cut) <==>
      p in c.lru[..cut] || (p in c.lru && Pinned(c.entries, pinned, p))
  {
    var front, back := c.lru[..cut], c.lru[cut..];
    PinnedOnlyFacts(c, pinned, back);
    assert c.lru == front + back;
    assert forall p :: p in c.lru <==> p in front || p in back;
    assert forall p :: p in front ==> p !in back;
    DistinctConcat(front, PinnedOnly(c, pinned, back));
  }

  lemma DistinctConcat(a: seq<string>, b: seq<string>)
    requires Distinct(a) && Distinct(b) && forall p :: p in a ==> p !in b
    ensures Distinct(a + b)
  {
    forall i, j | 0 <= i < j < |a + b| ensures (a + b)[i] != (a + b)[j] {
      if i < |a| <= j {
        assert a[i] in a && b[j - |a|] in b;
      }
    }
  }

  lemma EvictionCuts(c: Cache, pinned: set<Asset>) returns (cut: nat)
    ensures StopsAt(c, pinned, cut)
    ensures Evicted(c, pinned).lru == LeftAt(c, pinned, cut) && Evicted(c, pinned).used == CounterAt(c, pinned, cut)
  {
    CounterStart(c, pinned);
    assert c.lru[|c.lru|..] == [];
    cut := WalkStops(c, pinned, |c.lru|, [], c.used);
  }

  /** Eviction removes exactly the unpinned paths met from the back until the counter, less their present
      sizes, is within the limit; it ends there or with nothing but pinned assets, never loses a pinned
      one, and does nothing while the counter is within the limit.  This holds whatever the counter shows. */
  lemma EvictionIsExact(c: Cache, pinned: set<Asset>) returns (cut: nat)
    requires Valid(c)
    ensures StopsAt(c, pinned, cut)
    ensures Evicted(c, pinned).lru == LeftAt(c, pinned, cut) && Evicted(c, pinned).used == CounterAt(c, pinned, cut)
    ensures Valid(Evicted(c, pinned))
    ensures forall p :: p in Evicted(c, pinned).entries <==>
      p in c.entries && (p in c.lru[..cut] || Pinned(c.entries, pinned, p))
    ensures forall p :: p in Evicted(c, pinned).entries ==> Evicted(c, pinned).entries[p] == c.entries[p]
    ensures Evicted(c, pinned).used <= c.max
         || forall p :: p in Evicted(c, pinned).entries ==> Pinned(c.entries, pinned, p)
    ensures c.used <= c.max ==> Evicted(c, pinned) == c
  {
    cut := EvictionCuts(c, pinned);
    LeftFacts(c, pinned, cut);
    assert forall p :: p in c.lru[..cut] ==> p in c.lru;
    LeftAllPinned(c, pinned, cut);
    if c.used <= c.max {
      NothingToEvict(c, pinned);
    }
  }

  /** A walk that came to the front has left nothing but pinned paths. */
  lemma LeftAllPinned(c: Cache, pinned: set<Asset>, cut: nat)
    requires Distinct(c.lru) && cut <= |c.lru|
    ensures cut == 0 ==> forall p :: p in LeftAt(c, pinned, cut) ==> Pinned(c.entries, pinned, p)
  {
    LeftFacts(c, pinned, cut);
  }

  lemma NothingToEvict(c: Cache, pinned: set<Asset>)
    requires Valid(c) && c.used <= c.max
    ensures Evicted(c, pinned) == c
  {
    assert c.lru[..|c.lru|] + [] == c.lru;
    assert Restrict(c.entries, c.lru) == c.entries;
  }

  /** What eviction leaves adds up to the bytes left at its cut. */
  lemma EvictedSum(c: Cache, pinned: set<Asset>, cut: nat)
    requires Valid(c) && cut <= |c.lru| && Evicted(c, pinned).lru == LeftAt(c, pinned, cut)
    ensures Sum(Evicted(c, pinned)) == TotalAt(c, pinned, cut)
  {
    var t := Evicted(c, pinned);
    TotalSame(c.sizes, c.entries, t.entries, t.lru);
  }

  lemma LessCounts(sum: int, growth: int, left: int)
    ensures Wrap(Wrap(sum - growth) - (sum - left)) == Wrap(left - growth)
  {
    WrapAgain(sum - growth, sum - left);
  }

  lemma EvictionCounts(c: Cache, pinned: set<Asset>, growth: int)
    requires Valid(c) && Counts(c, growth)
    ensures Counts(Evicted(c, pinned), growth)
  {
    var cut := EvictionCuts(c, pinned);
    EvictedSum(c, pinned, cut);
    LessCounts(Sum(c), growth, TotalAt(c, pinned, cut));
  }

  lemma {:induction false} PinnedSmaller(c: Cache, pinned: set<Asset>, lru: seq<string>)
    ensures Total(c.sizes, c.entries, PinnedOnly(c, pinned, lru)) <= Total(c.sizes, c.entries, lru)
  {
    if lru != [] {
      PinnedSmaller(c, pinned, lru[1..]);
      var front := if Pinned(c.entries, pinned, lru[0]) then [lru[0]] else [];
      TotalConcat(c.sizes, c.entries, front, PinnedOnly(c, pinned, lru[1..]));
      TotalOne(c.sizes, c.entries, lru[0]);
    }
  }

  lemma LeftSmaller(c: Cache, pinned: set<Asset>, cut: nat)
    requires cut <= |c.lru|
    ensures TotalAt(c, pinned, cut) <= Sum(c)
  {
    PinnedSmaller(c, pinned, c.lru[cut..]);
    TotalConcat(c.sizes, c.entries, c.lru[..cut], c.lru[cut..]);
    TotalConcat(c.sizes, c.entries, c.lru[..cut], PinnedOnly(c, pinned, c.lru[cut..]));
    assert c.lru[..cut] + c.lru[cut..] == c.lru;
  }

  /** Eviction stops at the first position from the back where what is left fits. */
  ghost predicate FitsFirstAt(c: Cache, pinned: set<Asset>, cut: nat) {
    && cut <= |c.lru|
    && (cut == 0 || TotalAt(c, pinned, cut) <= c.max)
    && forall k :: cut < k <= |c.lru| ==> TotalAt(c, pinned, k) > c.max
  }

  lemma CounterIsTotal(c: Cache, pinned: set<Asset>, cut: nat)
    requires c.used == Sum(c) && cut <= |c.lru|
    ensures CounterAt(c, pinned, cut) == TotalAt(c, pinned, cut)
  {
    LeftSmaller(c, pinned, cut);
  }

  /** While the counter is the sum of the present sizes, eviction removes no more and no less than makes
      what is left fit. */
  lemma EvictionFits(c: Cache, pinned: set<Asset>) returns (cut: nat)
    requires Valid(c) && c.used == Sum(c)
    ensures FitsFirstAt(c, pinned, cut) && Evicted(c, pinned).lru == LeftAt(c, pinned, cut)
    ensures Evicted(c, pinned).used == Sum(Evicted(c, pinned))
  {
    cut := EvictionCuts(c, pinned);
    EvictedSum(c, pinned, cut);
    CounterIsTotal(c, pinned, cut);
    forall k | cut < k <= |c.lru| ensures TotalAt(c, pinned, k) > c.max {
      CounterIsTotal(c, pinned, k);
    }
  }

  /** Once assets have grown by more than is cached, the counter has wrapped: eviction removes every
      unpinned asset, however little is cached. */
  lemma WrappedLosesAll(c: Cache, pinned: set<Asset>, growth: nat)
    requires Valid(c) && Counts(c, growth) && Sum(c) < growth && growth + c.max < WORD
    ensures Evicted(c, pinned).lru == PinnedOnly(c, pinned, c.lru)
  {
    var cut := EvictionCuts(c, pinned);
    LeftSmaller(c, pinned, cut);
    WrappedHigh(Sum(c), TotalAt(c, pinned, cut), growth);
    assert cut == 0;
    LeftNothing(c, pinned);
  }

  lemma WrappedHigh(sum: nat, left: nat, growth: nat)
    requires left <= sum < growth < WORD
    ensures Wrap(Wrap(sum - growth) - (sum - left)) == WORD + left - growth
  {
    LessCounts(sum, growth, left);
  }

  lemma LeftNothing(c: Cache, pinned: set<Asset>)
    ensures LeftAt(c, pinned, 0) == PinnedOnly(c, pinned, c.lru)
  {
    assert c.lru[0..] == c.lru && c.lru[..0] == [];
    assert [] + PinnedOnly(c, pinned, c.lru) == PinnedOnly(c, pinned, c.lru);
  }

  lemma EnteredValid(c: Cache, asset: Asset, session: nat)
    requires Valid(c)
    ensures Valid(Entered(c, asset, session))
  {
    WithoutFacts(c.lru, asset.path);
    DistinctConcat([asset.path], Without(c.lru, asset.path));
  }

  lemma EnteredSum(c: Cache, asset: Asset, session: nat)
    requires Valid(c)
    ensures Sum(Entered(c, asset, session)) == Sum(c) - Size(c, asset.path) + SizeOf(c.sizes, asset)
  {
    var path, t, lru := asset.path, Entered(c, asset, session), Without(c.lru, asset.path);
    WithoutFacts(c.lru, path);
    TotalWithout(c.sizes, c.entries, c.lru, path);
    TotalSame(c.sizes, c.entries, t.entries, lru);
    TotalConcat(c.sizes, t.entries, [path], lru);
    TotalOne(c.sizes, t.entries, path);
  }

  lemma SwapCounts(sum: int, growth: int, old_: int, new_: int)
    ensures Wrap(Wrap(Wrap(sum - growth) - old_) + new_) == Wrap(sum - old_ + new_ - growth)
  {
    WrapAgain(sum - growth, old_);
    WrapAgain(sum - growth - old_, new_);
  }

  lemma EnteredCounts(c: Cache, asset: Asset, session: nat, growth: int)
    requires Valid(c) && Counts(c, growth)
    ensures Counts(Entered(c, asset, session), growth)
  {
    EnteredSum(c, asset, session);
    SwapCounts(Sum(c), growth, Size(c, asset.path), SizeOf(c.sizes, asset));
  }

  /** insert makes the asset the most recent entry, and its own eviction pass never drops it. */
  lemma InsertKeepsNew(c: Cache, asset: Asset, session: nat, pinned: set<Asset>)
    requires Valid(c)
    ensures Valid(Inserted(c, asset, session, pinned))
    ensures HasNew(Inserted(c, asset, session, pinned), asset, session)
    ensures Inserted(c, asset, session, pinned).used <= c.max
         || forall p :: p in Inserted(c, asset, session, pinned).entries ==>
              Inserted(c, asset, session, pinned).entries[p].asset in pinned + {asset}
  {
    EnteredValid(c, asset, session);
    EvictionKeepsFirst(Entered(c, asset, session), pinned + {asset});
  }

  predicate HasNew(c: Cache, asset: Asset, session: nat) {
    asset.path in c.entries && c.entries[asset.path] == Entry(asset, session) && c.lru != [] && c.lru[0] == asset.path
  }

  lemma EvictionKeepsFirst(c: Cache, pinned: set<Asset>)
    requires Valid(c) && c.lru != [] && Pinned(c.entries, pinned, c.lru[0])
    ensures
      var t, first := Evicted(c, pinned), c.lru[0];
      && Valid(t) && t.lru != [] && t.lru[0] == first
      && first in t.entries && t.entries[first] == c.entries[first]
      && (t.used <= c.max || forall p :: p in t.entries ==> t.entries[p].asset in pinned)
  {
    var cut := EvictionIsExact(c, pinned);
    FirstStays(c, pinned, cut);
    assert c.lru[0] in c.lru;
  }

  lemma FirstStays(c: Cache, pinned: set<Asset>, cut: nat)
    requires c.lru != [] && Pinned(c.entries, pinned, c.lru[0]) && cut <= |c.lru|
    ensures LeftAt(c, pinned, cut) != [] && LeftAt(c, pinned, cut)[0] == c.lru[0]
  {
    if cut == 0 {
      assert c.lru[0..] == c.lru;
    }
  }

  lemma {:induction false} OthersFacts(entries: Entries, lru: seq<string>, session: nat)
    requires Distinct(lru)
    ensures Distinct(OthersOf(entries, lru, session))
    ensures forall p :: p in OthersOf(entries, lru, session) <==> p in lru && !OfSession(entries, p, session)
  {
    if lru != [] {
      OthersFacts(entries, lru[1..], session);
      assert lru[0] !in lru[1..];
      assert forall p :: p in lru <==> p == lru[0] || p in lru[1..];
    }
  }

  lemma SessionClearedValid(c: Cache, session: nat)
    requires Valid(c)
    ensures Valid(SessionCleared(c, session))
  {
    if session != 0 {
      OthersFacts(c.entries, c.lru, session);
    }
  }

  lemma SessionClearedCounts(c: Cache, session: nat, growth: int)
    requires Valid(c) && Counts(c, growth)
    ensures Counts(SessionCleared(c, session), growth)
  {
    if session != 0 {
      OthersFacts(c.entries, c.lru, session);
      var t := SessionCleared(c, session);
      TotalSame(c.sizes, c.entries, t.entries, t.lru);
      WrapAgain(Sum(c) - growth, Sum(c) - Total(c.sizes, c.entries, t.lru));
    }
  }

  /** clear_session removes exactly the entries of that session, and never those of the application; the
      others keep their order. */
  lemma SessionClearedExactly(c: Cache, session: nat)
    requires Valid(c)
    ensures Valid(SessionCleared(c, session))
    ensures forall p :: p in SessionCleared(c, session).entries <==>
      p in c.entries && (session == 0 || c.entries[p].session != session)
    ensures forall p :: p in SessionCleared(c, session).entries ==> SessionCleared(c, session).entries[p] == c.entries[p]
    ensures Thinned(SessionCleared(c, session).lru, c.lru)
  {
    SessionClearedValid(c, session);
    if session == 0 {
      ThinnedSelf(c.lru);
    } else {
      OthersFacts(c.entries, c.lru, session);
      OthersThin(c.entries, c.lru, session);
    }
  }

  // ----- Runs: the list is in order of use

  datatype Event =
    | Get(path: string)
    | Insert(asset: Asset, session: nat, pinned: set<Asset>)
    | Evict(pinned: set<Asset>)
    | ClearSession(session: nat)
    | Clear
    | Resize(asset: Asset, size: Bytes)   // by whoever holds the asset, cached or not

  function Empty(max: Bytes, sizes: Sizes): Cache { Cache(max, 0, [], map[], sizes) }

  function Apply(c: Cache, e: Event): Cache {
    match e
    case Get(path) => Got(c, path)
    case Insert(asset, session, pinned) => Inserted(c, asset, session, pinned)
    case Evict(pinned) => Evicted(c, pinned)
    case ClearSession(session) => SessionCleared(c, session)
    case Clear => Empty(c.max, c.sizes)
    case Resize(asset, size) => c.(sizes := c.sizes[asset := size])
  }

  function After(max: Bytes, events: seq<Event>): Cache {
    if events == [] then Empty(max, map[]) else Apply(After(max, events[..|events| - 1]), events[|events| - 1])
  }

  predicate Touches(e: Event, path: string) {
    (e.Get? && e.path == path) || (e.Insert? && e.asset.path == path)
  }

  /** The position of the last get or insert of a path, or -1. */
  function LastTouch(events: seq<Event>, path: string): int {
    if events == [] then -1
    else if Touches(events[|events| - 1], path) then |events| - 1
    else LastTouch(events[..|events| - 1], path)
  }

  /** Ranks strictly fall along the list. */
  ghost predicate Falling(rank: string -> int, lru: seq<string>) {
    forall i, j :: 0 <= i < j < |lru| ==> rank(lru[i]) > rank(lru[j])
  }

  /** `a` is `b` with some elements taken out. */
  ghost predicate Thinned(a: seq<string>, b: seq<string>) {
    if b == [] then a == []
    else Thinned(a, b[1..]) || (a != [] && a[0] == b[0] && Thinned(a[1..], b[1..]))
  }

  lemma {:induction false} ThinnedIn(a: seq<string>, b: seq<string>)
    requires Thinned(a, b)
    ensures forall x :: x in a ==> x in b
  {
    if b != [] {
      if Thinned(a, b[1..]) {
        ThinnedIn(a, b[1..]);
      } else {
        ThinnedIn(a[1..], b[1..]);
        assert forall x :: x in a ==> x == a[0] || x in a[1..];
      }
    }
  }

  lemma {:induction false} ThinnedFalls(rank: string -> int, a: seq<string>, b: seq<string>)
    requires Thinned(a, b) && Falling(rank, b)
    ensures Falling(rank, a)
  {
    if b != [] {
      if Thinned(a, b[1..]) {
        ThinnedFalls(rank, a, b[1..]);
      } else {
        ThinnedFalls(rank, a[1..], b[1..]);
        ThinnedIn(a[1..], b[1..]);
        forall j | 0 < j < |a| ensures rank(a[0]) > rank(a[j]) {
          assert a[j] == a[1..][j - 1] && a[j] in b[1..];
        }
      }
    }
  }

  lemma {:induction false} ThinnedSelf(a: seq<string>)
    ensures Thinned(a, a)
  {
    if a != [] {
      ThinnedSelf(a[1..]);
    }
  }

  lemma {:induction false} WithoutThins(lru: seq<string>, path: string)
    ensures Thinned(Without(lru, path), lru)
  {
    if lru != [] {
      WithoutThins(lru[1..], path);
      assert ([lru[0]] + Without(lru[1..], path))[1..] == Without(lru[1..], path);
      assert [] + Without(lru[1..], path) == Without(lru[1..], path);
    }
  }

  lemma {:induction false} OthersThin(entries: Entries, lru: seq<string>, session: nat)
    ensures Thinned(OthersOf(entries, lru, session), lru)
  {
    if lru != [] {
      var rest := OthersOf(entries, lru[1..], session);
      OthersThin(entries, lru[1..], session);
      assert ([lru[0]] + rest)[1..] == rest && [] + rest == rest;
    }
  }

  lemma {:induction false} PinnedThins(c: Cache, pinned: set<Asset>, front: seq<string>, back: seq<string>)
    ensures Thinned(front + PinnedOnly(c, pinned, back), front + back)
  {
    if front != [] {
      PinnedThins(c, pinned, front[1..], back);
      assert (front + back)[1..] == front[1..] + back;
      assert (front + PinnedOnly(c, pinned, back))[1..] == front[1..] + PinnedOnly(c, pinned, back);
    } else if back != [] {
      var rest := PinnedOnly(c, pinned, back[1..]);
      PinnedThins(c, pinned, [], back[1..]);
      assert [] + back == back && [] + back[1..] == back[1..] && [] + rest == rest;
      assert [] + ([back[0]] + rest) == [back[0]] + rest && ([back[0]] + rest)[1..] == rest;
      assert [] + PinnedOnly(c, pinned, back) == PinnedOnly(c, pinned, back);
    }
  }

  lemma EvictedThins(c: Cache, pinned: set<Asset>)
    ensures Thinned(Evicted(c, pinned).lru, c.lru)
  {
    var cut := EvictionCuts(c, pinned);
    PinnedThins(c, pinned, c.lru[..cut], c.lru[cut..]);
    assert c.lru[..cut] + c.lru[cut..] == c.lru;
  }

  lemma ApplyValid(c: Cache, e: Event)
    requires Valid(c)
    ensures Valid(Apply(c, e))
  {
    match e {
      case Get(path) => GotValid(c, path);
      case Insert(asset, session, pinned) => InsertKeepsNew(c, asset, session, pinned);
      case Evict(pinned) => var cut := EvictionIsExact(c, pinned);
      case ClearSession(session) => SessionClearedExactly(c, session);
      case Clear =>
      case Resize(_, _) =>
    }
  }

  lemma FrontFalls(rank: string -> int, rank': string -> int, path: string, rest: seq<string>)
    requires Falling(rank, rest) && forall p :: p in rest ==> rank'(p) == rank(p) < rank'(path)
    ensures Falling(rank', [path] + rest)
  {
    forall i, j | 0 <= i < j < |[path] + rest| ensures rank'(([path] + rest)[i]) > rank'(([path] + rest)[j]) {
      assert rest[j - 1] in rest;
      if i > 0 {
        assert rest[i - 1] in rest && rank(rest[i - 1]) > rank(rest[j - 1]);
      }
    }
  }

  /** A use of `path` puts it in front of what was used before. */
  lemma TouchFalls(rank: string -> int, rank': string -> int, lru: seq<string>, path: string, now: int)
    requires Falling(rank, lru) && rank'(path) == now && (forall p :: rank(p) < now)
    requires forall p :: p != path ==> rank'(p) == rank(p)
    requires Distinct(lru)
    ensures Falling(rank', [path] + Without(lru, path))
  {
    WithoutThins(lru, path);
    ThinnedFalls(rank, Without(lru, path), lru);
    WithoutFacts(lru, path);
    FrontFalls(rank, rank', path, Without(lru, path));
  }

  /** An event that uses no cached path thins the list out. */
  lemma OtherFalls(rank: string -> int, rank': string -> int, c: Cache, e: Event)
    requires Valid(c) && Falling(rank, c.lru) && (e.Evict? || e.ClearSession? || e.Clear? || e.Resize?)
    requires forall p :: rank'(p) == rank(p)
    ensures Falling(rank', Apply(c, e).lru)
  {
    ThinnedSelf(c.lru);
    match e {
      case Evict(pinned) => EvictedThins(c, pinned);
      case ClearSession(session) => OthersThin(c.entries, c.lru, session);
      case Clear =>
      case Resize(_, _) =>
    }
    if !e.Clear? {
      ThinnedFalls(rank, Apply(c, e).lru, c.lru);
    }
  }

  lemma {:induction false} TouchedEarlier(events: seq<Event>, path: string)
    ensures -1 <= LastTouch(events, path) < |events|
  {
    if events != [] {
      TouchedEarlier(events[..|events| - 1], path);
    }
  }

  lemma {:induction false} AfterValid(max: Bytes, events: seq<Event>)
    ensures Valid(After(max, events))
  {
    if events != [] {
      AfterValid(max, events[..|events| - 1]);
      ApplyValid(After(max, events[..|events| - 1]), events[|events| - 1]);
    }
  }

  /** After any history the list and the map agree, and the list is in order of the last get or insert,
      most recent first. */
  lemma {:induction false} InOrderOfUse(max: Bytes, events: seq<Event>)
    ensures Valid(After(max, events))
    ensures Falling(p => LastTouch(events, p), After(max, events).lru)
  {
    if events != [] {
      var before, e := events[..|events| - 1], events[|events| - 1];
      var c := After(max, before);
      InOrderOfUse(max, before);
      ApplyValid(c, e);
      var rank, rank' := p => LastTouch(before, p), p => LastTouch(events, p);
      forall p ensures rank(p) < |events| - 1 { TouchedEarlier(before, p); }
      match e {
        case Get(path) => GetFalls(rank, rank', c, path, |events| - 1);
        case Insert(asset, session, pinned) =>
          TouchFalls(rank, rank', c.lru, asset.path, |events| - 1);
          EnteredValid(c, asset, session);
          EvictedThins(Entered(c, asset, session), pinned + {asset});
          ThinnedFalls(rank', Apply(c, e).lru, Entered(c, asset, session).lru);
        case _ => OtherFalls(rank, rank', c, e);
      }
    }
  }

  lemma GetFalls(rank: string -> int, rank': string -> int, c: Cache, path: string, now: int)
    requires Valid(c) && Falling(rank, c.lru) && rank'(path) == now && (forall p :: rank(p) < now)
    requires forall p :: p != path ==> rank'(p) == rank(p)
    ensures Falling(rank', Got(c, path).lru)
  {
    if path in c.entries {
      TouchFalls(rank, rank', c.lru, path, now);
    } else {
      assert forall i :: 0 <= i < |c.lru| ==> c.lru[i] in c.lru;
    }
  }

  // ----- Runs: the counter

  predicate Cached(c: Cache, asset: Asset) { asset.path in c.entries && c.entries[asset.path].asset == asset }

  /** By how much the event makes a cached asset grow. */
  function Grows(c: Cache, e: Event): int {
    if e.Resize? && Cached(c, e.asset) then e.size - SizeOf(c.sizes, e.asset) else 0
  }

  /** By how much assets have grown while they were cached, less what they shrank, since the last clear. */
  function Growth(max: Bytes, events: seq<Event>): int {
    if events == [] || events[|events| - 1].Clear? then 0
    else
      var before := events[..|events| - 1];
      Growth(max, before) + Grows(After(max, before), events[|events| - 1])
  }

  lemma {:induction false} TotalResized(c: Cache, lru: seq<string>, asset: Asset, size: Bytes)
    requires Distinct(lru) && forall p :: p in lru ==> p in c.entries && c.entries[p].asset.path == p
    ensures Total(c.sizes[asset := size], c.entries, lru) == Total(c.sizes, c.entries, lru)
         + if asset.path in lru && Cached(c, asset) then size - SizeOf(c.sizes, asset) else 0
  {
    if lru != [] {
      TotalResized(c, lru[1..], asset, size);
      assert lru[0] in lru && lru[0] !in lru[1..];
      assert asset.path in lru <==> asset.path == lru[0] || asset.path in lru[1..];
    }
  }

  lemma ResizeCounts(c: Cache, asset: Asset, size: Bytes, growth: int)
    requires Valid(c) && Counts(c, growth)
    ensures Counts(Apply(c, Resize(asset, size)), growth + Grows(c, Resize(asset, size)))
  {
    TotalResized(c, c.lru, asset, size);
  }

  lemma ApplyCounts(c: Cache, e: Event, growth: int)
    requires Valid(c) && Counts(c, growth)
    ensures Counts(Apply(c, e), if e.Clear? then 0 else growth + Grows(c, e))
  {
    match e {
      case Get(path) => GotValid(c, path);
      case Insert(asset, session, pinned) =>
        EnteredValid(c, asset, session);
        EnteredCounts(c, asset, session, growth);
        EvictionCounts(Entered(c, asset, session), pinned + {asset}, growth);
      case Evict(pinned) => EvictionCounts(c, pinned, growth);
      case ClearSession(session) => SessionClearedCounts(c, session, growth);
      case Clear =>
      case Resize(asset, size) => ResizeCounts(c, asset, size, growth);
    }
  }

  /** After any history the counter is the sum of the present sizes less the net growth while cached. */
  lemma {:induction false} CounterMissesGrowth(max: Bytes, events: seq<Event>)
    ensures Counts(After(max, events), Growth(max, events))
  {
    if events != [] {
      var before := events[..|events| - 1];
      CounterMissesGrowth(max, before);
      AfterValid(max, before);
      ApplyCounts(After(max, before), events[|events| - 1], Growth(max, before));
    }
  }

  /** The counter is what it is documented to be, as far as its 64 bits can show. */
  predicate Right(c: Cache) { c.used == Wrap(Sum(c)) }

  ghost predicate AlwaysRight(max: Bytes, events: seq<Event>) {
    forall n :: 0 <= n <= |events| ==> Right(After(max, events[..n]))
  }

  /** No event changes the size of an asset that is cached then. */
  ghost predicate NothingGrows(max: Bytes, events: seq<Event>) {
    forall n :: 0 <= n < |events| ==> Grows(After(max, events[..n]), events[n]) == 0
  }

  /** A counter that misses less than a whole turn is not right. */
  lemma MissingShows(n: int, growth: int)
    requires -WORD < growth < WORD
    ensures Wrap(n - growth) == Wrap(n) <==> growth == 0
  {
  }

  lemma {:induction false} RightStep(max: Bytes, events: seq<Event>, n: nat)
    requires n < |events|
    requires Growth(max, events[..n]) == 0
    ensures Right(After(max, events[..n + 1])) <==> Grows(After(max, events[..n]), events[n]) == 0
    ensures Grows(After(max, events[..n]), events[n]) == 0 ==> Growth(max, events[..n + 1]) == 0
  {
    var before, grows := events[..n], Grows(After(max, events[..n]), events[n]);
    assert events[..n + 1][..n] == before && events[..n + 1][n] == events[n];
    assert Growth(max, events[..n + 1]) == grows;
    CounterMissesGrowth(max, events[..n + 1]);
    MissingShows(Sum(After(max, events[..n + 1])), grows);
  }

  lemma {:induction false} RightWhileNothingGrows(max: Bytes, events: seq<Event>, n: nat)
    requires n <= |events|
    requires NothingGrows(max, events) || AlwaysRight(max, events)
    ensures Growth(max, events[..n]) == 0 && Right(After(max, events[..n]))
    ensures n < |events| ==> Grows(After(max, events[..n]), events[n]) == 0
  {
    if n > 0 {
      RightWhileNothingGrows(max, events, n - 1);
      RightStep(max, events, n - 1);
    }
    if n < |events| {
      RightStep(max, events, n);
    }
  }

  /** The counter is the sum of the cached sizes all through a history if and only if no asset changes
      its size while it is cached. */
  lemma CounterRightIff(max: Bytes, events: seq<Event>)
    ensures AlwaysRight(max, events) <==> NothingGrows(max, events)
  {
    if NothingGrows(max, events) {
      forall n | 0 <= n <= |events| ensures Right(After(max, events[..n])) {
        RightWhileNothingGrows(max, events, n);
      }
    }
    if AlwaysRight(max, events) {
      forall n | 0 <= n < |events| ensures Grows(After(max, events[..n]), events[n]) == 0 {
        RightWhileNothingGrows(max, events, n);
      }
    }
  }

  lemma AfterOne(max: Bytes, events: seq<Event>, e: Event)
    ensures After(max, events + [e]) == Apply(After(max, events), e)
  {
    assert (events + [e])[..|events|] == events;
  }

  /** A new asset that fits goes in front, and nothing is evicted. */
  lemma InsertedFresh(c: Cache, asset: Asset)
    requires Valid(c) && asset.path !in c.entries && c.used + SizeOf(c.sizes, asset) <= c.max
    ensures Inserted(c, asset, 0, {}) ==
      c.(used := c.used + SizeOf(c.sizes, asset), lru := [asset.path] + c.lru,
         entries := c.entries[asset.path := Entry(asset, 0)])
  {
    EnteredValid(c, asset, 0);
    WithoutAbsent(c.lru, asset.path);
    assert Entered(c, asset, 0).used == c.used + SizeOf(c.sizes, asset);
    NothingToEvict(Entered(c, asset, 0), {} + {asset});
  }

  const ATLAS := Asset(0, "atlas")
  const IMAGE := Asset(1, "image")
  const NEXT_ATLAS := Asset(2, "atlas")
  const SIZES: Sizes := map[IMAGE := 1, ATLAS := 4, NEXT_ATLAS := 4]

  lemma AssetsMade() returns (events: seq<Event>)
    ensures After(100, events) == Empty(100, SIZES)
  {
    AfterOne(100, [], Resize(IMAGE, 1));
    AfterOne(100, [] + [Resize(IMAGE, 1)], Resize(ATLAS, 4));
    events := [] + [Resize(IMAGE, 1)] + [Resize(ATLAS, 4)];
    AfterOne(100, events, Resize(NEXT_ATLAS, 4));
    events := events + [Resize(NEXT_ATLAS, 4)];
  }

  /** An image of one byte and an atlas of four are cached under a limit of a hundred. */
  lemma AtlasCached() returns (events: seq<Event>)
    ensures After(100, events) == Cache(100, 5, ["atlas", "image"],
                                        map["image" := Entry(IMAGE, 0), "atlas" := Entry(ATLAS, 0)], SIZES)
  {
    var made := AssetsMade();
    AfterOne(100, made, Insert(IMAGE, 0, {}));
    InsertedFresh(Empty(100, SIZES), IMAGE);
    var c := After(100, made + [Insert(IMAGE, 0, {})]);
    assert c == Cache(100, 1, ["image"], map["image" := Entry(IMAGE, 0)], SIZES);
    AfterOne(100, made + [Insert(IMAGE, 0, {})], Insert(ATLAS, 0, {}));
    InsertedFresh(c, ATLAS);
    events := made + [Insert(IMAGE, 0, {})] + [Insert(ATLAS, 0, {})];
  }

  /** The atlas grows to ten bytes while it is cached, and a new one is registered under its path: the
      counter wraps, and the image is evicted although five of a hundred bytes were cached. */
  lemma GrownAtlasEmptiesCache() returns (events: seq<Event>)
    ensures
      var c := After(100, events);
      c.lru == ["atlas"] && c.entries == map["atlas" := Entry(NEXT_ATLAS, 0)] && Sum(c) == 4 && c.used == WORD - 2
  {
    var cached := AtlasCached();
    AfterOne(100, cached, Resize(ATLAS, 10));
    events := cached + [Resize(ATLAS, 10)];
    AfterOne(100, events, Insert(NEXT_ATLAS, 0, {}));
    var grown := After(100, events);
    assert grown == After(100, cached).(sizes := SIZES[ATLAS := 10]);
    NextAtlasEntered(grown);
    LosesImage(Entered(grown, NEXT_ATLAS, 0));
    events := events + [Insert(NEXT_ATLAS, 0, {})];
  }

  lemma WithoutFirst(lru: seq<string>)
    requires Distinct(lru) && lru != []
    ensures Without(lru, lru[0]) == lru[1..]
  {
    assert lru[0] !in lru[1..];
    WithoutAbsent(lru[1..], lru[0]);
    assert [] + lru[1..] == lru[1..];
  }

  lemma NextAtlasEntered(c: Cache)
    requires c == Cache(100, 5, ["atlas", "image"], map["image" := Entry(IMAGE, 0), "atlas" := Entry(ATLAS, 0)],
                        SIZES[ATLAS := 10])
    ensures Entered(c, NEXT_ATLAS, 0)
         == Cache(100, WORD - 1, ["atlas", "image"],
                  map["image" := Entry(IMAGE, 0), "atlas" := Entry(NEXT_ATLAS, 0)], SIZES[ATLAS := 10])
  {
    WithoutFirst(c.lru);
    assert [c.lru[0]] + c.lru[1..] == c.lru;
    assert Size(c, "atlas") == 10 && SizeOf(c.sizes, NEXT_ATLAS) == 4;
  }

  lemma FiveBytes(c: Cache, pinned: set<Asset>)
    requires c.lru == ["atlas", "image"] && pinned == {NEXT_ATLAS} && c.sizes == SIZES[ATLAS := 10]
    requires c.entries == map["image" := Entry(IMAGE, 0), "atlas" := Entry(NEXT_ATLAS, 0)]
    ensures Sum(c) == 5 && PinnedOnly(c, pinned, c.lru) == ["atlas"]
  {
    assert c.lru[1..] == ["image"] && c.lru[1..][1..] == [];
    assert Size(c, "atlas") == 4 && Size(c, "image") == 1;
    TotalOne(c.sizes, c.entries, "image");
    assert PinnedOnly(c, pinned, c.lru[1..]) == [];
  }

  lemma LosesImage(c: Cache)
    requires c == Cache(100, WORD - 1, ["atlas", "image"],
                        map["image" := Entry(IMAGE, 0), "atlas" := Entry(NEXT_ATLAS, 0)], SIZES[ATLAS := 10])
    ensures
      var t := Evicted(c, {} + {NEXT_ATLAS});
      t.lru == ["atlas"] && t.entries == map["atlas" := Entry(NEXT_ATLAS, 0)] && Sum(t) == 4 && t.used == WORD - 2
  {
    var pinned := {} + {NEXT_ATLAS};
    FiveBytes(c, pinned);
    WrappedLosesAll(c, pinned, 6);
    var t := Evicted(c, pinned);
    assert t.lru == ["atlas"];
    TotalOne(t.sizes, t.entries, "atlas");
    EvictionCounts(c, pinned, 6);
  }

  // ----- The object itself

  /** The sizes are what the assets answer during a call. */
  class AssetCache {
    const maxBytes: Bytes
    var usedBytes: Bytes
    var lru: seq<string>
    var entries: Entries

    ghost function View(sizes: Sizes): Cache
      reads this
    {
      Cache(maxBytes, usedBytes, lru, entries, sizes)
    }

    constructor (max: Bytes)
      ensures forall sizes :: View(sizes) == Empty(max, sizes)
    {
      maxBytes := max;
      usedBytes, lru, entries := 0, [], map[];
    }

    method Get(path: string, ghost sizes: Sizes) returns (found: Option<Asset>)
      modifies this
      ensures View(sizes) == Got(old(View(sizes)), path)
      ensures found == if path in entries then Some(entries[path].asset) else None
    {
      if path !in entries {
        return None;
      }
      lru := [path] + Without(lru, path);
      found := Some(entries[path].asset);
    }

    method Peek(path: string) returns (found: Option<Asset>)
      ensures found == if path in entries then Some(entries[path].asset) else None
    {
      found := if path in entries then Some(entries[path].asset) else None;
    }

    method Insert(asset: Asset, session: nat, pinned: set<Asset>, sizes: Sizes)
      requires Valid(View(sizes))
      modifies this
      ensures View(sizes) == Inserted(old(View(sizes)), asset, session, pinned)
      ensures Valid(View(sizes))
    {
      EnteredValid(View(sizes), asset, session);
      Enter(asset, session, sizes);
      EvictLocked(pinned + {asset}, sizes);
    }

    /** insert up to its eviction pass. */
    method Enter(asset: Asset, session: nat, sizes: Sizes)
      requires Valid(View(sizes))
      modifies this
      ensures View(sizes) == Entered(old(View(sizes)), asset, session)
    {
      var path := asset.path;
      GiveBack(path, sizes);
      usedBytes := Wrap(usedBytes + SizeOf(sizes, asset));
      lru := [path] + lru;
      entries := entries[path := Entry(asset, session)];
    }

    /** An entry already cached under the path goes, with its bytes. */
    method GiveBack(path: string, sizes: Sizes)
      requires Valid(View(sizes))
      modifies this
      ensures usedBytes == Wrap(old(usedBytes) - SizeAt(sizes, old(entries), path))
      ensures lru == Without(old(lru), path) && entries == old(entries) - {path}
    {
      if path in entries {
        usedBytes := Wrap(usedBytes - SizeOf(sizes, entries[path].asset));
        lru := Without(lru, path);
        entries := entries - {path};
      } else {
        WithoutAbsent(lru, path);
      }
    }

    /** Erase the list element at `i` with its entry and its bytes. */
    method EraseAt(i: nat, sizes: Sizes, ghost all: Entries)
      requires i < |lru| && Distinct(lru) && lru[i] in entries && entries == Restrict(all, lru)
      modifies this
      ensures lru == old(lru)[..i] + old(lru)[i + 1..] && Distinct(lru)
      ensures entries == Restrict(all, lru)
      ensures usedBytes == Wrap(old(usedBytes) - SizeAt(sizes, all, old(lru)[i]))
    {
      RemoveAt(lru, i);
      usedBytes := Wrap(usedBytes - SizeOf(sizes, entries[lru[i]].asset));
      entries := entries - {lru[i]};
      lru := lru[..i] + lru[i + 1..];
    }

    /** One turn of the eviction loop at list position `it`. */
    method EvictOne(ghost c: Cache, pinned: set<Asset>, sizes: Sizes, it: nat)
      requires it < |lru| && it < |c.lru| && lru[..it + 1] == c.lru[..it + 1] && Distinct(lru) && usedBytes > c.max
      requires c.lru[it] in c.entries && entries == Restrict(c.entries, lru) && sizes == c.sizes
      modifies this
      ensures it <= |lru| && lru[..it] == c.lru[..it] && Distinct(lru) && entries == Restrict(c.entries, lru)
      ensures Walk(c, pinned, it, lru[it..], usedBytes) == Walk(c, pinned, it + 1, old(lru[it + 1..]), old(usedBytes))
    {
      ghost var kept := lru[it + 1..];
      OneFront(lru, c.lru, it);
      WalkUnfolds(c, pinned, it, kept, usedBytes);
      if entries[lru[it]].asset !in pinned {
        EraseAt(it, sizes, c.entries);
      }
    }

    /** evict_locked: an iterator walks the list from the back. */
    method EvictLocked(pinned: set<Asset>, sizes: Sizes)
      requires Valid(View(sizes))
      modifies this
      ensures View(sizes) == Evicted(old(View(sizes)), pinned)
      ensures Valid(View(sizes))
    {
      ghost var c := View(sizes);
      ghost var cut := EvictionIsExact(c, pinned);
      if usedBytes <= maxBytes {
        return;
      }
      WholeList(c);
      EvictLoop(pinned, sizes);
      WalkIsEvicted(c, pinned, lru, usedBytes);
    }

    method EvictLoop(pinned: set<Asset>, sizes: Sizes)
      requires Distinct(lru) && entries == Restrict(entries, lru) && forall p :: p in lru ==> p in entries
      modifies this
      ensures (lru, usedBytes) == Walk(old(View(sizes)), pinned, |old(lru)|, [], old(usedBytes))
      ensures entries == Restrict(old(entries), lru)
    {
      ghost var c := View(sizes);
      var it := |lru|;
      assert lru[it..] == [];
      while usedBytes > maxBytes && it > 0
        invariant it <= |c.lru| && it <= |lru| && lru[..it] == c.lru[..it] && Distinct(lru)
        invariant Walk(c, pinned, it, lru[it..], usedBytes) == Walk(c, pinned, |c.lru|, [], c.used)
        invariant entries == Restrict(c.entries, lru)
        decreases it
      {
        it := it - 1;
        assert c.lru[it] in c.lru;
        EvictOne(c, pinned, sizes, it);
      }
      assert lru == lru[..it] + lru[it..];
    }

    /** clear_session: an iterator walks the list from the front. */
    method ClearSession(session: nat, sizes: Sizes)
      requires Valid(View(sizes))
      modifies this
      ensures View(sizes) == SessionCleared(old(View(sizes)), session)
      ensures Valid(View(sizes))
    {
      SessionClearedValid(View(sizes), session);
      if session != 0 {
        ClearOthers(session, sizes);
      }
    }

    method ClearOthers(session: nat, sizes: Sizes)
      requires Valid(View(sizes)) && session != 0
      modifies this
      ensures View(sizes) == SessionCleared(old(View(sizes)), session)
    {
      ghost var c := View(sizes);
      WholeList(c);
      ClearLoop(session, sizes);
      ClearedIsCleared(c, session, lru, usedBytes);
    }

    method ClearLoop(session: nat, sizes: Sizes)
      requires Distinct(lru) && entries == Restrict(entries, lru) && forall p :: p in lru ==> p in entries
      modifies this
      ensures ClearedTo(sizes, old(entries), old(lru), session, lru, [], old(usedBytes), usedBytes)
      ensures entries == Restrict(old(entries), lru)
    {
      ghost var all, list, before := entries, lru, usedBytes;
      var it: nat := 0;
      ClearedNone(sizes, all, list, session, before);
      while it < |lru|
        invariant Clearing(sizes, all, list, session, it, before)
        decreases |lru| - it
      {
        it := ClearTurn(it, session, sizes, all, list, before);
      }
      assert lru[..it] == lru && lru[it..] == [];
    }

    /** The loop stands before position `it`. */
    ghost predicate Clearing(sizes: Sizes, all: Entries, list: seq<string>, session: nat, it: nat, before: Bytes)
      reads this
    {
      && it <= |lru| && Distinct(lru) && entries == Restrict(all, lru)
      && ClearedTo(sizes, all, list, session, lru[..it], lru[it..], before, usedBytes)
    }

    method ClearTurn(it: nat, session: nat, sizes: Sizes, ghost all: Entries, ghost list: seq<string>,
                     ghost before: Bytes) returns (next: nat)
      requires it < |lru| && Clearing(sizes, all, list, session, it, before)
      modifies this
      ensures Clearing(sizes, all, list, session, next, before) && |lru| - next < old(|lru|) - it
    {
      ClearedOne(sizes, all, list, session, lru, it, before, usedBytes);
      next := ClearOne(it, session, sizes, all);
    }

    /** One turn of the loop: the element at the iterator is erased or passed. */
    method ClearOne(it: nat, session: nat, sizes: Sizes, ghost all: Entries) returns (next: nat)
      requires it < |lru| && Distinct(lru) && entries == Restrict(all, lru) && lru[it] in all
      modifies this
      ensures next <= |lru| && |lru| - next == old(|lru|) - it - 1
      ensures Distinct(lru) && entries == Restrict(all, lru) && lru[next..] == old(lru)[it + 1..]
      ensures
        if all[old(lru)[it]].session == session then
          lru[..next] == old(lru)[..it] && usedBytes == Wrap(old(usedBytes) - SizeAt(sizes, all, old(lru)[it]))
        else
          lru[..next] == old(lru)[..it] + [old(lru)[it]] && usedBytes == old(usedBytes)
    {
      assert lru[it] in lru;
      if entries[lru[it]].session == session {
        OneFront(lru, lru, it);
        EraseAt(it, sizes, all);
        next := it;
      } else {
        next := it + 1;
      }
    }
  }

  /** The element the iterator has come to, and what is left when it is erased. */
  lemma OneFront(lru: seq<string>, all: seq<string>, it: nat)
    requires it < |lru| && it < |all| && lru[..it + 1] == all[..it + 1]
    ensures lru[it] == all[it] && lru[it] in lru && lru[..it] == all[..it] && lru[it..] == [lru[it]] + lru[it + 1..]
    ensures
      var rest := lru[..it] + lru[it + 1..];
      rest[..it] == lru[..it] && rest[it..] == lru[it + 1..]
  {
    assert lru[..it + 1][it] == all[..it + 1][it];
    assert lru[..it + 1][..it] == all[..it + 1][..it];
  }

  lemma WalkIsEvicted(c: Cache, pinned: set<Asset>, lru: seq<string>, used: Bytes)
    requires (lru, used) == Walk(c, pinned, |c.lru|, [], c.used)
    ensures Cache(c.max, used, lru, Restrict(c.entries, lru), c.sizes) == Evicted(c, pinned)
  {
  }

  lemma ClearedIsCleared(c: Cache, session: nat, lru: seq<string>, used: Bytes)
    requires session != 0 && ClearedTo(c.sizes, c.entries, c.lru, session, lru, [], c.used, used)
    ensures Cache(c.max, used, lru, Restrict(c.entries, lru), c.sizes) == SessionCleared(c, session)
  {
    ClearedAll(c.sizes, c.entries, c.lru, session, lru, c.used, used);
  }

  /** The loop of clear_session has passed `kept`, `rest` is still to come, and the counter has gone from
      `before` to `used` by the sizes of what is erased. */
  ghost predicate ClearedTo(sizes: Sizes, all: Entries, list: seq<string>, session: nat,
                            kept: seq<string>, rest: seq<string>, before: Bytes, used: Bytes) {
    && (forall p :: p in rest ==> p in all)
    && kept + OthersOf(all, rest, session) == OthersOf(all, list, session)
    && Freed(before, used, Total(sizes, all, list) - Total(sizes, all, kept + rest))
  }

  predicate Freed(before: Bytes, used: Bytes, freed: int) { used == Wrap(before - freed) }

  lemma FreedMore(before: Bytes, used: Bytes, freed: int, size: int)
    requires Freed(before, used, freed)
    ensures Freed(before, Wrap(used - size), freed + size)
  {
    WrapAgain(before - freed, size);
  }

  lemma ClearedNone(sizes: Sizes, all: Entries, list: seq<string>, session: nat, before: Bytes)
    requires forall p :: p in list ==> p in all
    ensures list[..0] == [] && list[0..] == list
    ensures ClearedTo(sizes, all, list, session, [], list, before, before)
  {
    assert [] + list == list && [] + OthersOf(all, list, session) == OthersOf(all, list, session);
  }

  lemma ClearedOne(sizes: Sizes, all: Entries, list: seq<string>, session: nat,
                   lru: seq<string>, it: nat, before: Bytes, used: Bytes)
    requires it < |lru| && ClearedTo(sizes, all, list, session, lru[..it], lru[it..], before, used)
    ensures lru[it] in all
    ensures
      var path := lru[it];
      if all[path].session == session then
        ClearedTo(sizes, all, list, session, lru[..it], lru[it + 1..], before, Wrap(used - SizeAt(sizes, all, path)))
      else
        ClearedTo(sizes, all, list, session, lru[..it] + [path], lru[it + 1..], before, used)
  {
    var kept, rest := lru[..it], lru[it..];
    assert rest[0] == lru[it] && rest[1..] == lru[it + 1..];
    assert rest[0] in rest && forall p :: p in rest[1..] ==> p in rest;
    OneLess(sizes, all, kept, rest);
    OneOn(all, kept, rest, session);
    FreedMore(before, used, Total(sizes, all, list) - Total(sizes, all, kept + rest), SizeAt(sizes, all, rest[0]));
  }

  lemma ClearedAll(sizes: Sizes, all: Entries, list: seq<string>, session: nat, kept: seq<string>,
                   before: Bytes, used: Bytes)
    requires ClearedTo(sizes, all, list, session, kept, [], before, used)
    ensures kept == OthersOf(all, list, session) && kept + [] == kept
    ensures used == Wrap(before - (Total(sizes, all, list) - Total(sizes, all, kept)))
  {
    assert kept + [] == kept;
  }

  lemma WholeList(c: Cache)
    requires Valid(c)
    ensures c.lru[..|c.lru|] + [] == c.lru && [] + c.lru == c.lru
    ensures Restrict(c.entries, c.lru) == c.entries
  {
  }

  lemma WalkUnfolds(c: Cache, pinned: set<Asset>, it: nat, kept: seq<string>, used: Bytes)
    requires it < |c.lru| && used > c.max && c.lru[it] in c.entries
    ensures Walk(c, pinned, it + 1, kept, used)
         == if c.entries[c.lru[it]].asset in pinned then Walk(c, pinned, it, [c.lru[it]] + kept, used)
            else Walk(c, pinned, it, kept, Wrap(used - Size(c, c.lru[it])))
  {
  }

  lemma OneLess(sizes: Sizes, entries: Entries, kept: seq<string>, rest: seq<string>)
    requires rest != []
    ensures kept + rest == (kept + [rest[0]]) + rest[1..]
    ensures Total(sizes, entries, kept + rest)
         == Total(sizes, entries, kept + rest[1..]) + SizeAt(sizes, entries, rest[0])
  {
    TotalConcat(sizes, entries, kept, rest);
    TotalConcat(sizes, entries, kept, rest[1..]);
  }

  lemma OneOn(entries: Entries, kept: seq<string>, rest: seq<string>, session: nat)
    requires rest != []
    ensures kept + OthersOf(entries, rest, session)
         == (if OfSession(entries, rest[0], session) then kept else kept + [rest[0]])
            + OthersOf(entries, rest[1..], session)
  {
    var others := OthersOf(entries, rest[1..], session);
    Regroup(kept, if OfSession(entries, rest[0], session) then [] else [rest[0]], others);
    assert kept + [] == kept;
  }

  lemma {:induction false} WithoutAbsent(lru: seq<string>, path: string)
    requires path !in lru
    ensures Without(lru, path) == lru
  {
    if lru != [] {
      WithoutAbsent(lru[1..], path);
    }
  }

  lemma RemoveAt(lru: seq<string>, i: nat)
    requires i < |lru| && Distinct(lru)
    ensures Distinct(lru[..i] + lru[i + 1..])
    ensures forall p :: p in lru[..i] + lru[i + 1..] <==> p in lru && p != lru[i]
  {
    forall p ensures p in lru[..i] + lru[i + 1..] <==> p in lru && p != lru[i] {
      if p in lru && p != lru[i] {
        var k :| 0 <= k < |lru| && lru[k] == p;
        assert k < i ==> lru[..i][k] == p;
        assert k > i ==> lru[i + 1..][k - i - 1] == p;
      }
    }
  }
}
