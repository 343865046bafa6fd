/**
 * Bookkeeping of the gateway's disk cache (gateway/cache.go): the recency list, the index over it and the
 * byte account, as the critical sections under the cache mutex change them.
 */
module Cache {
  import opened Prelude

  type Hash = string

  /** The files of the cache directory: the canonical file of a hash and its temporary file. */
  datatype File = Final(hash: Hash) | Tmp(hash: Hash)

  datatype Entry = Entry(hash: Hash, size: nat, path: File)

  /** `pathFor`, and the name of the temporary file that `Put` derives from it. */
  function PathFor(dir: string, f: File): string
    requires |f.hash| >= 2
  {
    var final := dir + "/xorbs/" + f.hash[..2] + "/" + f.hash + ".bin";
    if f.Final? then final else final + ".tmp"
  }

  /** Different files have different names. */
  lemma PathsApart(dir: string, f: File, g: File)
    requires |f.hash| == |g.hash| == 64 && f != g
    ensures PathFor(dir, f) != PathFor(dir, g)
  {
    var n := |dir| + 10;
    assert PathFor(dir, f)[n..n + 64] == f.hash && PathFor(dir, g)[n..n + 64] == g.hash;
    assert |PathFor(dir, f)| == |dir| + (if f.Final? then 78 else 82);
    assert |PathFor(dir, g)| == |dir| + (if g.Final? then 78 else 82);
  }

  // ----- the recency list as a value; the most recently used entry comes first

  function Sum(l: seq<Entry>): nat {
    if l == [] then 0 else Sum(l[..|l| - 1]) + l[|l| - 1].size
  }

  predicate DistinctHashes(l: seq<Entry>) {
    forall i, j :: 0 <= i < j < |l| ==> l[i].hash != l[j].hash
  }

  /** The list without the entry of `h`. */
  function Without(l: seq<Entry>, h: Hash): seq<Entry> {
    if l == [] then []
    else
      var rest := Without(l[..|l| - 1], h);
      if l[|l| - 1].hash == h then rest else rest + [l[|l| - 1]]
  }

  /** The list after a hit on `e`. */
  function Bump(l: seq<Entry>, e: Entry): seq<Entry> {
    [e] + Without(l, e.hash)
  }

  /** What eviction leaves of a list: entries are dropped from its end until the budget is met. */
  function Fit(l: seq<Entry>, maxBytes: int): seq<Entry> {
    if maxBytes <= 0 || Sum(l) <= maxBytes then l
    else if l == [] then []
    else Fit(l[..|l| - 1], maxBytes)
  }

  lemma SumAppend(a: seq<Entry>, b: seq<Entry>)
    ensures Sum(a + b) == Sum(a) + Sum(b)
  {
    if b == [] {
      assert a + b == a;
    } else {
      assert (a + b)[..|a + b| - 1] == a + b[..|b| - 1];
      SumAppend(a, b[..|b| - 1]);
    }
  }

  /** Eviction leaves exactly the longest prefix of the recency order that fits the budget. */
  lemma {:induction false} FitLongest(l: seq<Entry>, maxBytes: int)
    ensures Fit(l, maxBytes) <= l
    ensures maxBytes > 0 ==> Sum(Fit(l, maxBytes)) <= maxBytes
    ensures maxBytes > 0 ==> forall n :: |Fit(l, maxBytes)| < n <= |l| ==> Sum(l[..n]) > maxBytes
    ensures maxBytes <= 0 ==> Fit(l, maxBytes) == l
  {
    if maxBytes > 0 && Sum(l) > maxBytes && l != [] {
      var shorter := l[..|l| - 1];
      FitLongest(shorter, maxBytes);
      forall n | |Fit(l, maxBytes)| < n <= |l| ensures Sum(l[..n]) > maxBytes {
        if n < |l| {
          assert shorter[..n] == l[..n];
        } else {
          assert l[..n] == l;
        }
      }
    }
  }

  lemma {:induction false} WithoutAbsent(l: seq<Entry>, h: Hash)
    requires forall i :: 0 <= i < |l| ==> l[i].hash != h
    ensures Without(l, h) == l
  {
    if l != [] {
      WithoutAbsent(l[..|l| - 1], h);
    }
  }

  lemma {:induction false} WithoutAt(l: seq<Entry>, h: Hash, i: nat)
    requires DistinctHashes(l) && i < |l| && l[i].hash == h
    ensures Without(l, h) == l[..i] + l[i + 1..]
  {
    var front, last := l[..|l| - 1], l[|l| - 1];
    if i == |l| - 1 {
      WithoutAbsent(front, h);
    } else {
      WithoutAt(front, h, i);
      assert front[i + 1..] + [last] == l[i + 1..];
    }
  }

  lemma SumSingle(e: Entry)
    ensures Sum([e]) == e.size
  {
    assert [e][..0] == [];
  }

  lemma {:induction false} SumRemove(l: seq<Entry>, i: nat)
    requires i < |l|
    ensures Sum(l[..i] + l[i + 1..]) + l[i].size == Sum(l)
  {
    var r, front := l[..i] + l[i + 1..], l[..|l| - 1];
    if i == |l| - 1 {
      assert r == front;
    } else {
      SumRemove(front, i);
      assert r[..|r| - 1] == front[..i] + front[i + 1..];
    }
  }

  lemma MembersRemove(l: seq<Entry>, i: nat)
    requires DistinctHashes(l) && i < |l|
    ensures DistinctHashes(l[..i] + l[i + 1..])
    ensures forall x :: x in l[..i] + l[i + 1..] <==> x in l && x.hash != l[i].hash
  {
    var r := l[..i] + l[i + 1..];
    assert forall j :: 0 <= j < |r| ==> r[j] == if j < i then l[j] else l[j + 1];
    forall x | x in l && x.hash != l[i].hash ensures x in r {
      var j :| 0 <= j < |l| && l[j] == x;
      assert r[if j < i then j else j - 1] == x;
    }
  }

  /** `Without` removes exactly the entry of `h`. */
  lemma WithoutExact(l: seq<Entry>, h: Hash, e: Entry)
    requires DistinctHashes(l) && e in l && e.hash == h
    ensures DistinctHashes(Without(l, h)) && Sum(Without(l, h)) + e.size == Sum(l)
    ensures forall x :: x in Without(l, h) <==> x in l && x.hash != h
  {
    var i :| 0 <= i < |l| && l[i] == e;
    WithoutAt(l, h, i);
    SumRemove(l, i);
    MembersRemove(l, i);
  }

  // ----- whole runs: the list is ordered by the last use

  /** A hit of `Open`, the bookkeeping of `Put`, or the drop of a stale entry. */
  datatype Use = Hit(hash: Hash) | Store(entry: Entry) | Drop(hash: Hash)

  function Find(l: seq<Entry>, h: Hash): (r: Option<Entry>)
    ensures r.Some? ==> r.value in l && r.value.hash == h
    ensures r.None? ==> forall e :: e in l ==> e.hash != h
  {
    if l == [] then None else if l[0].hash == h then Some(l[0]) else Find(l[1..], h)
  }

  function After(l: seq<Entry>, u: Use, maxBytes: int): seq<Entry> {
    match u
    case Hit(h) => if Find(l, h).Some? then Bump(l, Find(l, h).value) else l
    case Store(e) => Fit([e] + Without(l, e.hash), maxBytes)
    case Drop(h) => Without(l, h)
  }

  function Run(uses: seq<Use>, maxBytes: int): seq<Entry> {
    if uses == [] then [] else After(Run(uses[..|uses| - 1], maxBytes), uses[|uses| - 1], maxBytes)
  }

  /** A `Put` leaves exactly the longest prefix within the budget of its own entry followed by the others in their
      order, and its own entry is among them exactly when it is within the budget by itself. */
  lemma StoreExact(l: seq<Entry>, e: Entry, maxBytes: int)
    ensures var order, after := [e] + Without(l, e.hash), After(l, Store(e), maxBytes);
      && after <= order && (maxBytes <= 0 ==> after == order)
      && (maxBytes > 0 ==> Sum(after) <= maxBytes && forall n :: |after| < n <= |order| ==> Sum(order[..n]) > maxBytes)
      && (e in after <==> maxBytes <= 0 || e.size <= maxBytes)
  {
    var order, after := [e] + Without(l, e.hash), After(l, Store(e), maxBytes);
    FitLongest(order, maxBytes);
    SumSingle(e);
    assert order[..1] == [e];
    if after != [] {
      assert after[0] == e;
      SumPrefix(after, 1);
      assert after[..1] == [e];
    }
  }

  lemma {:induction false} SumPrefix(l: seq<Entry>, n: nat)
    requires n <= |l|
    ensures Sum(l[..n]) <= Sum(l)
  {
    if n == |l| {
      assert l[..n] == l;
    } else {
      SumPrefix(l[..|l| - 1], n);
      assert l[..|l| - 1][..n] == l[..n];
    }
  }

  predicate Touches(u: Use, h: Hash) {
    match u
    case Hit(g) => g == h
    case Store(e) => e.hash == h
    case Drop(_) => false
  }

  /** When `h` was used last, or -1. */
  function LastTouch(uses: seq<Use>, h: Hash): (t: int)
    ensures -1 <= t < |uses|
  {
    if uses == [] then -1
    else if Touches(uses[|uses| - 1], h) then |uses| - 1
    else LastTouch(uses[..|uses| - 1], h)
  }

  /** Most recently used first, no hash twice. */
  predicate ByRecency(l: seq<Entry>, uses: seq<Use>) {
    forall i, j :: 0 <= i < j < |l| ==> LastTouch(uses, l[i].hash) > LastTouch(uses, l[j].hash)
  }

  lemma RecencyDistinct(l: seq<Entry>, uses: seq<Use>)
    requires ByRecency(l, uses)
    ensures DistinctHashes(l)
  {
    forall i, j | 0 <= i < j < |l| ensures l[i].hash != l[j].hash {
      assert LastTouch(uses, l[i].hash) > LastTouch(uses, l[j].hash);
    }
  }

  lemma RemoveAtByRecency(l: seq<Entry>, uses: seq<Use>, i: nat)
    requires ByRecency(l, uses) && i < |l|
    ensures ByRecency(l[..i] + l[i + 1..], uses)
  {
    var r := l[..i] + l[i + 1..];
    assert forall j :: 0 <= j < |r| ==> r[j] == if j < i then l[j] else l[j + 1];
  }

  lemma TouchOther(uses: seq<Use>, u: Use, h: Hash)
    requires !Touches(u, h)
    ensures LastTouch(uses + [u], h) == LastTouch(uses, h)
  {
    assert (uses + [u])[..|uses|] == uses;
  }

  lemma TouchNow(uses: seq<Use>, u: Use, h: Hash)
    requires Touches(u, h)
    ensures LastTouch(uses + [u], h) == |uses|
  {
  }

  /** A use of other hashes does not change the order among entries. */
  lemma ByRecencyLater(l: seq<Entry>, uses: seq<Use>, u: Use)
    requires ByRecency(l, uses) && forall e :: e in l ==> !Touches(u, e.hash)
    ensures ByRecency(l, uses + [u])
    ensures forall e :: e in l ==> LastTouch(uses + [u], e.hash) < |uses|
  {
    forall e | e in l ensures LastTouch(uses + [u], e.hash) == LastTouch(uses, e.hash) {
      TouchOther(uses, u, e.hash);
    }
    forall i, j | 0 <= i < j < |l| ensures LastTouch(uses + [u], l[i].hash) > LastTouch(uses + [u], l[j].hash) {
      assert l[i] in l && l[j] in l;
    }
  }

  /** Removing the entry that is used next keeps the recency order. */
  lemma RecencyWithout(l: seq<Entry>, uses: seq<Use>, u: Use, h: Hash)
    requires ByRecency(l, uses) && forall g :: Touches(u, g) ==> g == h
    ensures ByRecency(Without(l, h), uses + [u])
    ensures forall e :: e in Without(l, h) ==> LastTouch(uses + [u], e.hash) < |uses|
  {
    RecencyDistinct(l, uses);
    if i :| 0 <= i < |l| && l[i].hash == h {
      WithoutExact(l, h, l[i]);
      WithoutAt(l, h, i);
      RemoveAtByRecency(l, uses, i);
    } else {
      WithoutAbsent(l, h);
    }
    ByRecencyLater(Without(l, h), uses, u);
  }

  lemma RecencyPush(e: Entry, l: seq<Entry>, now: seq<Use>)
    requires ByRecency(l, now) && forall x :: x in l ==> LastTouch(now, x.hash) < LastTouch(now, e.hash)
    ensures ByRecency([e] + l, now)
  {
    var r := [e] + l;
    forall i, j | 0 <= i < j < |r| ensures LastTouch(now, r[i].hash) > LastTouch(now, r[j].hash) {
      assert r[j] == l[j - 1] && l[j - 1] in l;
    }
  }

  /** After any run of uses the list holds its entries in the order of their last use, so that what
      eviction drops was used longer ago than everything it keeps, and the budget is met. */
  lemma {:induction false} RunByRecency(uses: seq<Use>, maxBytes: int)
    ensures ByRecency(Run(uses, maxBytes), uses)
    ensures maxBytes > 0 ==> Sum(Run(uses, maxBytes)) <= maxBytes
  {
    if uses != [] {
      var before, u := uses[..|uses| - 1], uses[|uses| - 1];
      var l := Run(before, maxBytes);
      assert uses == before + [u];
      RunByRecency(before, maxBytes);
      RecencyDistinct(l, before);
      match u {
        case Hit(h) =>
          RecencyWithout(l, before, u, h);
          if Find(l, h).Some? {
            var e := Find(l, h).value;
            TouchNow(before, u, h);
            RecencyPush(e, Without(l, h), uses);
            WithoutExact(l, h, e);
            SumAppend([e], Without(l, h));
            SumSingle(e);
          } else {
            WithoutAbsent(l, h);
          }
        case Store(e) =>
          RecencyWithout(l, before, u, e.hash);
          TouchNow(before, u, e.hash);
          RecencyPush(e, Without(l, e.hash), uses);
          FitLongest([e] + Without(l, e.hash), maxBytes);
        case Drop(h) =>
          RecencyWithout(l, before, u, h);
          if Find(l, h).Some? {
            WithoutExact(l, h, Find(l, h).value);
          } else {
            WithoutAbsent(l, h);
          }
      }
    }
  }

  // ----- the cache

  /** List and index are in bijection. */
  predicate Indexed(l: seq<Entry>, index: map<Hash, Entry>) {
    && DistinctHashes(l)
    && (forall e :: e in l ==> e.hash in index && index[e.hash] == e)
    && (forall h :: h in index ==> index[h] in l && index[h].hash == h)
  }

  predicate Filed(l: seq<Entry>) {
    forall e :: e in l ==> e.path == Final(e.hash)
  }

  lemma IndexedPush(l: seq<Entry>, index: map<Hash, Entry>, e: Entry)
    requires Indexed(l, index) && e.hash !in index && Filed(l) && e.path == Final(e.hash)
    ensures Indexed([e] + l, index[e.hash := e]) && Filed([e] + l) && Sum([e] + l) == e.size + Sum(l)
  {
    SumAppend([e], l);
    SumSingle(e);
    forall i | 0 <= i < |l| ensures l[i].hash != e.hash {
      assert l[i] in l;
    }
  }

  function SizeIn(index: map<Hash, Entry>, h: Hash): nat {
    if h in index then index[h].size else 0
  }

  lemma IndexedRemove(l: seq<Entry>, index: map<Hash, Entry>, h: Hash)
    requires Indexed(l, index) && Filed(l)
    ensures Indexed(Without(l, h), index - {h}) && Filed(Without(l, h))
    ensures Sum(Without(l, h)) == Sum(l) - SizeIn(index, h)
    ensures h !in index ==> Without(l, h) == l
  {
    if h in index {
      WithoutExact(l, h, index[h]);
    } else {
      WithoutAbsent(l, h);
    }
  }

  lemma IndexedBump(l: seq<Entry>, index: map<Hash, Entry>, h: Hash)
    requires Indexed(l, index) && Filed(l) && h in index
    ensures Indexed(Bump(l, index[h]), index) && Filed(Bump(l, index[h])) && Sum(Bump(l, index[h])) == Sum(l)
  {
    IndexedRemove(l, index, h);
    IndexedPush(Without(l, h), index - {h}, index[h]);
    assert (index - {h})[h := index[h]] == index;
  }

  /** Evicting the last entry. */
  lemma EvictStep(l: seq<Entry>, index: map<Hash, Entry>, maxBytes: int)
    requires Indexed(l, index) && l != [] && 0 < maxBytes < Sum(l)
    ensures var last := l[|l| - 1];
      && Indexed(l[..|l| - 1], index - {last.hash})
      && Sum(l[..|l| - 1]) == Sum(l) - last.size && Fit(l[..|l| - 1], maxBytes) == Fit(l, maxBytes)
  {
    var front, last := l[..|l| - 1], l[|l| - 1];
    assert last in l;
    forall h | h in index && h != last.hash ensures index[h] in front {
      assert index[h] in l;
    }
  }

  /** The files of the entries from `n` on, in the order in which eviction unlinks them. */
  function Evicted(order: seq<Entry>, n: nat): seq<File>
    requires n <= |order|
    decreases |order| - n
  {
    if n == |order| then [] else Evicted(order, n + 1) + [order[n].path]
  }

  /** The index finds what the list holds. */
  lemma FindIndexed(l: seq<Entry>, index: map<Hash, Entry>, h: Hash)
    requires Indexed(l, index)
    ensures Find(l, h) == if h in index then Some(index[h]) else None
  {
  }

  lemma FitBudget(l: seq<Entry>, maxBytes: int)
    requires Filed(l)
    ensures Filed(Fit(l, maxBytes)) && (maxBytes > 0 ==> Sum(Fit(l, maxBytes)) <= maxBytes)
  {
    FitLongest(l, maxBytes);
  }

  class Cache {
    const maxBytes: int
    var bytesUsed: int
    var lru: seq<Entry>
    var index: map<Hash, Entry>

    /** List and index are in bijection, the account is the sum of the sizes, and the budget is kept. */
    ghost predicate Valid()
      reads this
    {
      && Indexed(lru, index) && Filed(lru) && bytesUsed == Sum(lru)
      && (maxBytes > 0 ==> bytesUsed <= maxBytes)
    }

    constructor (maxBytes: int)
      ensures Valid() && lru == [] && this.maxBytes == maxBytes
    {
      this.maxBytes := maxBytes;
      bytesUsed, lru, index := 0, [], map[];
    }

    /** The first critical section of `Open`: looks the hash up and makes a hit most recently used. */
    method Lookup(hash: Hash) returns (r: Option<Entry>)
      requires Valid()
      modifies this`lru
      ensures Valid()
      ensures r == if hash in index then Some(index[hash]) else None
      ensures lru == After(old(lru), Hit(hash), maxBytes)
    {
      FindIndexed(lru, index, hash);
      if hash !in index {
        return None;
      }
      var entry := index[hash];
      IndexedBump(lru, index, hash);
      lru := [entry] + Without(lru, hash);
      r := Some(entry);
    }

    /** The second critical section of `Open`: forgets an entry whose file could not be opened, unless it has
        got another file in the meantime. */
    method DropStale(hash: Hash, path: File)
      requires Valid()
      modifies this`bytesUsed, this`lru, this`index
      ensures Valid()
      ensures if hash in old(index) && old(index)[hash].path != path
              then lru == old(lru) && index == old(index)
              else lru == After(old(lru), Drop(hash), maxBytes) && index == old(index) - {hash}
    {
      if hash in index && index[hash].path == path {
        IndexedRemove(lru, index, hash);
        bytesUsed := bytesUsed - index[hash].size;
        lru := Without(lru, hash);
        index := index - {hash};
      } else if hash !in index {
        IndexedRemove(lru, index, hash);
        assert index - {hash} == index;
      }
    }

    /** Every indexed file has its final name. */
    lemma StalePath(hash: Hash)
      requires Valid()
      ensures hash in index ==> index[hash].path == Final(hash)
    {
      if hash in index {
        assert index[hash] in lru;
      }
    }

    /** `evictLocked`: returns the files to unlink. */
    method EvictLocked() returns (removed: seq<File>)
      requires Indexed(lru, index) && bytesUsed == Sum(lru)
      modifies this`bytesUsed, this`lru, this`index
      ensures Indexed(lru, index) && bytesUsed == Sum(lru)
      ensures lru == Fit(old(lru), maxBytes) && lru <= old(lru) && removed == Evicted(old(lru), |lru|)
    {
      removed := [];
      if maxBytes <= 0 {
        return;
      }
      while bytesUsed > maxBytes && lru != []
        invariant Indexed(lru, index) && bytesUsed == Sum(lru)
        invariant lru <= old(lru) && Fit(lru, maxBytes) == Fit(old(lru), maxBytes)
        invariant removed == Evicted(old(lru), |lru|)
        decreases |lru|
      {
        EvictStep(lru, index, maxBytes);
        var entry := lru[|lru| - 1];
        lru := lru[..|lru| - 1];
        index := index - {entry.hash};
        bytesUsed := bytesUsed - entry.size;
        removed := removed + [entry.path];
      }
    }

    /** The bookkeeping of `Put` after its rename: the new entry comes first, and the longest prefix of the
        recency order that fits the budget stays. */
    method Insert(hash: Hash, size: nat) returns (removed: seq<File>)
      requires Valid() && |hash| == 64
      modifies this`bytesUsed, this`lru, this`index
      ensures Valid()
      ensures lru == After(old(lru), Store(Entry(hash, size, Final(hash))), maxBytes)
      ensures var order := [Entry(hash, size, Final(hash))] + Without(old(lru), hash);
           lru <= order && removed == Evicted(order, |lru|)
    {
      IndexedRemove(lru, index, hash);
      if hash in index {
        bytesUsed := bytesUsed - index[hash].size;
        lru := Without(lru, hash);
        index := index - {hash};
      }
      var entry := Entry(hash, size, Final(hash));
      IndexedPush(lru, index, entry);
      bytesUsed := bytesUsed + size;
      index := index[hash := entry];
      lru := [entry] + lru;
      FitBudget(lru, maxBytes);
      removed := EvictLocked();
    }
  }

  /** What a caller of the cache can do: hashes of 64 characters, files under their final names. */
  predicate Filing(u: Use) {
    u.Store? ==> |u.entry.hash| == 64 && u.entry.path == Final(u.entry.hash)
  }

  /** Any sequence of critical sections, from an empty cache: its list is the run of the uses, so that it is in
      order of last use, within the budget, and always the longest prefix that fits. */
  method Drive(maxBytes: int, uses: seq<Use>) returns (c: Cache)
    requires forall i :: 0 <= i < |uses| ==> Filing(uses[i])
    ensures fresh(c) && c.Valid() && c.maxBytes == maxBytes && c.lru == Run(uses, maxBytes)
    ensures ByRecency(c.lru, uses)
  {
    c := new Cache(maxBytes);
    for i := 0 to |uses|
      invariant fresh(c) && c.Valid() && c.maxBytes == maxBytes && c.lru == Run(uses[..i], maxBytes)
    {
      assert uses[..i + 1][..i] == uses[..i];
      match uses[i] {
        case Hit(h) =>
          var _ := c.Lookup(h);
        case Store(e) =>
          var _ := c.Insert(e.hash, e.size);
        case Drop(h) =>
          c.StalePath(h);
          c.DropStale(h, Final(h));
      }
    }
    assert uses[..|uses|] == uses;
    RunByRecency(uses, maxBytes);
  }
}
