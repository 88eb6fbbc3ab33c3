/** Fragments of the flagged memory pool (lib832soc/memorypool.c), and what merging them does. */
module FragSpec {
  /** A stretch of memory of one kind: a free fragment, or an allocated chunk with its tag. */
  datatype Frag = Frag(addr: int, size: int, flags: int)

  const FRAGMENT := 12  // sizeof(struct MemoryPool_AllocFragment)
  const TAG := 16       // sizeof(struct AllocTag)
  const RECORD := 8     // sizeof(struct MemoryPool_AllocRecord)

  predicate Apart(x: Frag, y: Frag) {
    x.addr + x.size <= y.addr || y.addr + y.size <= x.addr
  }

  /** Disjoint fragments, each with room for its header. */
  ghost predicate Good(f: seq<Frag>) {
    && (forall i :: 0 <= i < |f| ==> f[i].addr > 0 && f[i].size > FRAGMENT)
    && (forall i, j :: 0 <= i < j < |f| ==> Apart(f[i], f[j]))
  }

  /** Fragment a ends where fragment b of the same kind starts. */
  predicate Edge(f: seq<Frag>, a: int, b: int) {
    && 0 <= a < |f| && 0 <= b < |f| && a != b
    && f[a].addr + f[a].size == f[b].addr && f[a].flags == f[b].flags
  }

  /** No two fragments can be merged. */
  ghost predicate Merged(f: seq<Frag>) {
    forall a, b :: !Edge(f, a, b)
  }

  // ---------- Coverage ----------

  predicate Holds(x: Frag, a: int, flags: int) {
    x.addr <= a < x.addr + x.size && x.flags == flags
  }

  ghost predicate Covers(f: seq<Frag>, a: int, flags: int) {
    exists i :: 0 <= i < |f| && Holds(f[i], a, flags)
  }

  /** Both lists cover the same bytes, with the same flags. */
  ghost predicate SameCover(f: seq<Frag>, g: seq<Frag>) {
    forall a, flags :: Covers(f, a, flags) <==> Covers(g, a, flags)
  }

  function Total(f: seq<Frag>): int {
    if f == [] then 0 else f[0].size + Total(f[1..])
  }

  lemma {:induction false} TotalConcat(f: seq<Frag>, g: seq<Frag>)
    ensures Total(f + g) == Total(f) + Total(g)
  {
    if f == [] {
      assert f + g == g;
    } else {
      TotalConcat(f[1..], g);
      assert (f + g)[1..] == f[1..] + g;
    }
  }

  function Drop(f: seq<Frag>, j: nat): seq<Frag>
    requires j < |f|
  {
    f[..j] + f[j + 1..]
  }

  lemma TotalDrop(f: seq<Frag>, j: nat)
    requires j < |f|
    ensures Total(Drop(f, j)) == Total(f) - f[j].size
  {
    TotalConcat(f[..j], f[j + 1..]);
    TotalConcat(f[..j], f[j..]);
    assert f == f[..j] + f[j..] && f[j..][1..] == f[j + 1..];
  }

  lemma TotalGrow(f: seq<Frag>, i: nat, n: int)
    requires i < |f|
    ensures Total(f[i := f[i].(size := f[i].size + n)]) == Total(f) + n
  {
    var g := f[i := f[i].(size := f[i].size + n)];
    TotalConcat(f[..i], f[i..]);
    TotalConcat(g[..i], g[i..]);
    assert f == f[..i] + f[i..] && f[i..][1..] == f[i + 1..];
    assert g == g[..i] + g[i..] && g[i..][1..] == g[i + 1..] && g[..i] == f[..i] && g[i + 1..] == f[i + 1..];
  }

  // ---------- One merge: fragment i swallows fragment j, which starts where it ends ----------

  function Swallow(f: seq<Frag>, i: nat, j: nat): seq<Frag>
    requires i < |f| && j < |f|
  {
    Drop(f[i := f[i].(size := f[i].size + f[j].size)], j)
  }

  /** Where fragment k of f is after fragment j has gone. */
  function Moved(k: int, j: int): int {
    if k < j then k else k - 1
  }

  /** And where fragment k was before. */
  function Was(k: int, j: int): int {
    if k < j then k else k + 1
  }

  lemma SwallowAt(f: seq<Frag>, i: nat, j: nat, k: int)
    requires Edge(f, i, j) && 0 <= k < |f| - 1
    ensures var g := Swallow(f, i, j);
      |g| == |f| - 1 && g[k] == if Was(k, j) == i then f[i].(size := f[i].size + f[j].size) else f[Was(k, j)]
  {
  }

  lemma SwallowGood(f: seq<Frag>, i: nat, j: nat)
    requires Good(f) && Edge(f, i, j)
    ensures Good(Swallow(f, i, j))
  {
    var g := Swallow(f, i, j);
    forall k | 0 <= k < |g| ensures g[k].addr > 0 && g[k].size > FRAGMENT {
      SwallowAt(f, i, j, k);
    }
    forall k, l | 0 <= k < l < |g| ensures Apart(g[k], g[l]) {
      SwallowAt(f, i, j, k);
      SwallowAt(f, i, j, l);
    }
  }

  lemma SwallowCovers(f: seq<Frag>, i: nat, j: nat)
    requires Good(f) && Edge(f, i, j)
    ensures SameCover(f, Swallow(f, i, j))
  {
    var g := Swallow(f, i, j);
    forall a, flags ensures Covers(f, a, flags) <==> Covers(g, a, flags) {
      if Covers(f, a, flags) {
        var k :| 0 <= k < |f| && Holds(f[k], a, flags);
        var l := Moved(if k == j then i else k, j);
        SwallowAt(f, i, j, l);
        assert Holds(g[l], a, flags);
      }
      if Covers(g, a, flags) {
        var k :| 0 <= k < |g| && Holds(g[k], a, flags);
        SwallowAt(f, i, j, k);
        assert Was(k, j) == i && !Holds(f[i], a, flags) ==> Holds(f[j], a, flags);
        assert Was(k, j) != i ==> Holds(f[Was(k, j)], a, flags);
      }
    }
  }

  lemma SwallowTotal(f: seq<Frag>, i: nat, j: nat)
    requires Edge(f, i, j)
    ensures Total(Swallow(f, i, j)) == Total(f)
  {
    TotalGrow(f, i, f[j].size);
    TotalDrop(f[i := f[i].(size := f[i].size + f[j].size)], j);
  }

  /** The merged fragment has the way in of the first and the way out of the second. */
  lemma SwallowEdge(f: seq<Frag>, i: nat, j: nat, a: int, b: int)
    requires Good(f) && Edge(f, i, j) && Edge(Swallow(f, i, j), a, b)
    ensures Edge(f, if Was(a, j) == i then j else Was(a, j), Was(b, j))
  {
    SwallowAt(f, i, j, a);
    SwallowAt(f, i, j, b);
  }

  /** Disjointness does not depend on the order of the list. */
  lemma Disjoint(f: seq<Frag>, i: int, j: int)
    requires Good(f) && 0 <= i < |f| && 0 <= j < |f|
    ensures i != j ==> Apart(f[i], f[j])
  {
    assert i < j ==> Apart(f[i], f[j]);
    assert j < i ==> Apart(f[j], f[i]);
  }

  lemma OneWay(f: seq<Frag>, a: int, b: int)
    requires Good(f) && Edge(f, a, b)
    ensures !Edge(f, b, a)
    ensures forall c :: Edge(f, a, c) ==> c == b
    ensures forall c :: Edge(f, c, b) ==> c == a
  {
    forall c | Edge(f, a, c) ensures c == b {
      Disjoint(f, c, b);
    }
    forall c | Edge(f, c, b) ensures c == a {
      Disjoint(f, c, a);
    }
  }

  // ---------- How close to merged ----------

  /** Only fragment 0 can be merged with anything: the state just after a release. */
  ghost predicate Star(f: seq<Frag>) {
    forall a, b :: Edge(f, a, b) ==> a == 0 || b == 0
  }

  ghost predicate OneEdge(f: seq<Frag>) {
    forall a, b, c, d :: Edge(f, a, b) && Edge(f, c, d) ==> a == c && b == d
  }

  /** Fragment a can be merged with none of those from lo up to hi. */
  ghost predicate Clear(f: seq<Frag>, a: int, lo: int, hi: int) {
    forall b :: lo <= b < hi ==> !Edge(f, a, b) && !Edge(f, b, a)
  }

  /** The scan is at fragment i, and has compared it with those before j. */
  ghost predicate Scanning(f: seq<Frag>, i: int, j: int) {
    && (forall a :: 0 <= a < i ==> Clear(f, a, 0, |f|))
    && Clear(f, i, 0, j)
    && ((i == 0 && Star(f)) || OneEdge(f))
  }

  /** Fragment i swallows j: the scan goes on from where it is. */
  lemma ScanForward(f: seq<Frag>, i: nat, j: nat)
    requires Good(f) && Scanning(f, i, j) && i < j && Edge(f, i, j)
    ensures Scanning(Swallow(f, i, j), i, j)
  {
    var g := Swallow(f, i, j);
    OneWay(f, i, j);
    forall a, b | Edge(g, a, b) ensures i == 0 && Star(f) && b == 0 && a >= j {
      SwallowEdge(f, i, j, a, b);
      var u := if Was(a, j) == i then j else Was(a, j);
      assert Edge(f, u, Was(b, j));
      assert OneEdge(f) ==> u == i;
      assert !Edge(f, u, Was(b, j)) || u != 0;
      assert u < j ==> !Edge(f, u, i);
    }
  }

  /** Fragment j swallows i: the scan starts over. */
  lemma ScanAgain(f: seq<Frag>, i: nat, j: nat)
    requires Good(f) && Scanning(f, i, j) && i < j && Edge(f, j, i)
    ensures OneEdge(Swallow(f, j, i))
  {
    var g := Swallow(f, j, i);
    OneWay(f, j, i);
    forall a, b | Edge(g, a, b) ensures i == 0 && Star(f) && Was(a, i) == j && Edge(f, i, Was(b, i)) {
      SwallowEdge(f, j, i, a, b);
      var u := if Was(a, i) == j then i else Was(a, i);
      assert OneEdge(f) ==> u == j;
    }
    forall a, b, c, d | Edge(g, a, b) && Edge(g, c, d) ensures a == c && b == d {
      OneWay(f, i, Was(b, i));
    }
  }

  /** Fragment j cannot be merged with i. */
  lemma ScanOn(f: seq<Frag>, i: nat, j: nat)
    requires Scanning(f, i, j) && !Edge(f, i, j) && !Edge(f, j, i)
    ensures Scanning(f, i, j + 1)
  {
  }

  /** Fragment i has been compared with all. */
  lemma ScanNext(f: seq<Frag>, i: nat)
    requires Scanning(f, i, |f|) && i < |f|
    ensures Scanning(f, i + 1, i + 2)
  {
    assert forall a :: 0 <= a < i + 1 ==> Clear(f, a, 0, |f|);
    var k := i + 1;
    forall b | 0 <= b < k + 1 ensures !Edge(f, k, b) && !Edge(f, b, k) {
      if b <= i {
        assert Clear(f, b, 0, |f|);
      }
    }
    if i == 0 && Star(f) {
      assert forall a, b :: !Edge(f, a, b);
    }
  }

  lemma ScanDone(f: seq<Frag>, i: nat, j: int)
    requires Scanning(f, i, j) && i >= |f|
    ensures Merged(f)
  {
    forall a, b ensures !Edge(f, a, b) {
      if 0 <= a < |f| {
        assert Clear(f, a, 0, |f|);
      }
    }
  }

  // ---------- Chunks ----------

  /** Swallowing within the free list leaves the chunks that follow as they are. */
  lemma SwallowBeside(f: seq<Frag>, live: seq<Frag>, i: nat, j: nat)
    requires Good(f + live) && Edge(f, i, j)
    ensures Good(Swallow(f, i, j) + live) && Good(f)
  {
    assert forall k :: 0 <= k < |f| ==> (f + live)[k] == f[k];
    assert Edge(f + live, i, j);
    SwallowGood(f + live, i, j);
    assert Swallow(f + live, i, j) == Swallow(f, i, j) + live;
  }

  /** x lies in what bank s has to give: all but the record at its start. */
  predicate InBank(x: Frag, s: Frag) {
    s.addr + RECORD <= x.addr && x.addr + x.size <= s.addr + s.size && x.flags == s.flags
  }

  ghost predicate HasBank(x: Frag, seeds: seq<Frag>) {
    exists k :: 0 <= k < |seeds| && InBank(x, seeds[k])
  }

  ghost predicate Banked(f: seq<Frag>, seeds: seq<Frag>) {
    forall i :: 0 <= i < |f| ==> HasBank(f[i], seeds)
  }

  ghost predicate AllApart(seeds: seq<Frag>) {
    forall k, l :: 0 <= k < l < |seeds| ==> Apart(seeds[k], seeds[l])
  }

  lemma BanksApart(seeds: seq<Frag>, s: int, t: int)
    requires AllApart(seeds) && 0 <= s < |seeds| && 0 <= t < |seeds|
    ensures s != t ==> Apart(seeds[s], seeds[t])
  {
    assert s < t ==> Apart(seeds[s], seeds[t]);
    assert t < s ==> Apart(seeds[t], seeds[s]);
  }

  /** Fragments that touch come from the same bank, since a record starts every bank. */
  lemma SwallowBanked(f: seq<Frag>, seeds: seq<Frag>, i: nat, j: nat)
    requires Good(f) && Edge(f, i, j) && Banked(f, seeds)
    requires AllApart(seeds)
    ensures Banked(Swallow(f, i, j), seeds)
  {
    var g := Swallow(f, i, j);
    forall k | 0 <= k < |g| ensures HasBank(g[k], seeds) {
      SwallowAt(f, i, j, k);
      var w := Was(k, j);
      assert HasBank(f[w], seeds) && HasBank(f[j], seeds);
      var s :| 0 <= s < |seeds| && InBank(f[w], seeds[s]);
      if w == i {
        var t :| 0 <= t < |seeds| && InBank(f[j], seeds[t]);
        BanksApart(seeds, s, t);
        assert InBank(g[k], seeds[s]);
      } else {
        assert InBank(g[k], seeds[s]);
      }
    }
  }
}
