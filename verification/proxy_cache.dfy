/**
 * The object cache of Project/ProxyLab/cache.c with its reader-writer
 * semaphores erased: a singly linked list of cached web objects keyed by
 * hostname, port and uri, a running total of their sizes, and a global
 * lookup counter whose values serve as time stamps for least-recently-used
 * eviction. The list is a sequence, head first; an element's `next` link
 * is its successor in the sequence.
 */
module ProxyCache {
  import opened Outcomes

  /** The byte budget of the whole cache, and of one object. */
  const MAX_CACHE_SIZE: nat := 1049000
  const MAX_OBJECT_SIZE: nat := 102400

  type Byte = x: int | 0 <= x < 256

  /** One `cache_elem`. */
  datatype Elem = Elem(stamp: nat, size: nat, hostname: string, port: int, uri: string, data: seq<Byte>)

  /** The `cache_list` (its elements and `total_cache_size`) with the global `counter`. */
  datatype Cache = Cache(elems: seq<Elem>, total: int, counter: nat)

  /** The sizes of the listed elements, added up. */
  function Sum(xs: seq<Elem>): nat
  {
    if xs == [] then 0 else xs[0].size + Sum(xs[1..])
  }

  lemma SumCons(x: Elem, xs: seq<Elem>)
    ensures Sum([x] + xs) == x.size + Sum(xs)
  {
    assert ([x] + xs)[1..] == xs;
  }

  /** The size account is exact and within budget. */
  predicate TotalOk(c: Cache)
  {
    c.total == Sum(c.elems) && c.total <= MAX_CACHE_SIZE
  }

  /**
   * `initialize_cache` resets the counter; `main` of proxy.c empties the
   * list and zeroes its total. The empty cache keeps the size account.
   */
  function InitializeCache(): (c: Cache)
    ensures TotalOk(c) && c.elems == [] && c.counter == 0
  {
    Cache([], 0, 0)
  }

  /** An element answers the key when hostname, port and uri all agree. */
  predicate Matches(e: Elem, hostname: string, port: int, uri: string)
  {
    e.hostname == hostname && e.port == port && e.uri == uri
  }

  /** The first position at or after `i` whose element answers the key. */
  function FindFrom(xs: seq<Elem>, hostname: string, port: int, uri: string, i: nat): (r: Option<nat>)
    requires i <= |xs|
    ensures r.None? <==> forall j :: i <= j < |xs| ==> !Matches(xs[j], hostname, port, uri)
    ensures r.Some? ==>
      && i <= r.value < |xs| && Matches(xs[r.value], hostname, port, uri)
      && forall j :: i <= j < r.value ==> !Matches(xs[j], hostname, port, uri)
    decreases |xs| - i
  {
    if i == |xs| then None
    else if Matches(xs[i], hostname, port, uri) then Some(i)
    else FindFrom(xs, hostname, port, uri, i + 1)
  }

  /**
   * `check_cache_list`: every lookup advances the counter; a hit is the
   * first element answering the key, and its stamp becomes the new counter
   * value. Nothing else in the cache changes.
   */
  function CheckCacheList(c: Cache, hostname: string, port: int, uri: string): (r: (Cache, Option<nat>))
    ensures r.0.counter == c.counter + 1 && r.0.total == c.total
    ensures r.1.None? <==> forall j :: 0 <= j < |c.elems| ==> !Matches(c.elems[j], hostname, port, uri)
    ensures r.1.None? ==> r.0.elems == c.elems
    ensures r.1.Some? ==>
      && r.1.value < |c.elems| && Matches(c.elems[r.1.value], hostname, port, uri)
      && (forall j :: 0 <= j < r.1.value ==> !Matches(c.elems[j], hostname, port, uri))
      && r.0.elems == c.elems[r.1.value := c.elems[r.1.value].(stamp := c.counter + 1)]
  {
    var found := FindFrom(c.elems, hostname, port, uri, 0);
    match found
    case None => (c.(counter := c.counter + 1), None)
    case Some(k) => (Cache(c.elems[k := c.elems[k].(stamp := c.counter + 1)], c.total, c.counter + 1), found)
  }

  /** A lookup changes stamps only, so the size account survives it. */
  lemma CheckKeepsTotal(c: Cache, hostname: string, port: int, uri: string)
    requires TotalOk(c)
    ensures TotalOk(CheckCacheList(c, hostname, port, uri).0)
  {
    var r := CheckCacheList(c, hostname, port, uri);
    if r.1.Some? {
      SumStampFree(c.elems, r.1.value, c.counter + 1);
    }
  }

  lemma {:induction false} SumStampFree(xs: seq<Elem>, k: nat, t: nat)
    requires k < |xs|
    ensures Sum(xs[k := xs[k].(stamp := t)]) == Sum(xs)
    decreases |xs|
  {
    var ys := xs[k := xs[k].(stamp := t)];
    if k > 0 {
      assert ys[1..] == xs[1..][k - 1 := xs[k].(stamp := t)];
      SumStampFree(xs[1..], k - 1, t);
    } else {
      assert ys[1..] == xs[1..];
    }
  }

  /** The running minimum of `update_least_time`, starting from `least`. */
  function LeastFrom(xs: seq<Elem>, least: nat): (r: nat)
    ensures r <= least && forall i :: 0 <= i < |xs| ==> r <= xs[i].stamp
    ensures r == least || exists i :: 0 <= i < |xs| && xs[i].stamp == r
    decreases |xs|
  {
    if xs == [] then least
    else
      var r := LeastFrom(xs[1..], if xs[0].stamp < least then xs[0].stamp else least);
      assert forall i :: 1 <= i < |xs| ==> xs[i] == xs[1..][i - 1];
      r
  }

  /** `update_least_time` from the head: the least stamp in the list, attained by some element. */
  function UpdateLeastTime(xs: seq<Elem>): (r: nat)
    requires xs != []
    ensures forall i :: 0 <= i < |xs| ==> r <= xs[i].stamp
    ensures exists i :: 0 <= i < |xs| && xs[i].stamp == r
  {
    LeastFrom(xs, xs[0].stamp)
  }

  /**
   * `ys` is `xs` with some elements unlinked, the rest in their order, and
   * every unlinked element stamped at most `m`.
   */
  ghost predicate Dropped(xs: seq<Elem>, ys: seq<Elem>, m: nat)
    decreases |xs|
  {
    if xs == [] then ys == []
    else
      || (ys != [] && ys[0] == xs[0] && Dropped(xs[1..], ys[1..], m))
      || (xs[0].stamp <= m && Dropped(xs[1..], ys, m))
  }

  lemma {:induction false} DroppedNone(xs: seq<Elem>, m: nat)
    ensures Dropped(xs, xs, m)
    decreases |xs|
  {
    if xs != [] {
      DroppedNone(xs[1..], m);
    }
  }

  lemma {:induction false} DroppedMono(xs: seq<Elem>, ys: seq<Elem>, m: nat, m': nat)
    requires Dropped(xs, ys, m) && m <= m'
    ensures Dropped(xs, ys, m')
    decreases |xs|
  {
    if xs != [] {
      if ys != [] && ys[0] == xs[0] && Dropped(xs[1..], ys[1..], m) {
        DroppedMono(xs[1..], ys[1..], m, m');
      } else {
        DroppedMono(xs[1..], ys, m, m');
      }
    }
  }

  lemma {:induction false} DroppedTrans(xs: seq<Elem>, ys: seq<Elem>, zs: seq<Elem>, m: nat)
    requires Dropped(xs, ys, m) && Dropped(ys, zs, m)
    ensures Dropped(xs, zs, m)
    decreases |xs|
  {
    if xs != [] {
      if ys != [] && ys[0] == xs[0] && Dropped(xs[1..], ys[1..], m) {
        if zs != [] && zs[0] == ys[0] && Dropped(ys[1..], zs[1..], m) {
          DroppedTrans(xs[1..], ys[1..], zs[1..], m);
        } else {
          DroppedTrans(xs[1..], ys[1..], zs, m);
        }
      } else {
        DroppedTrans(xs[1..], ys, zs, m);
      }
    }
  }

  /** Whatever survives an unlinking was in the list before. */
  lemma {:induction false} DroppedKeeps(xs: seq<Elem>, ys: seq<Elem>, m: nat)
    requires Dropped(xs, ys, m)
    ensures forall y :: y in ys ==> y in xs
    decreases |xs|
  {
    if xs != [] {
      if ys != [] && ys[0] == xs[0] && Dropped(xs[1..], ys[1..], m) {
        DroppedKeeps(xs[1..], ys[1..], m);
        assert forall y :: y in ys ==> y == ys[0] || y in ys[1..];
      } else {
        DroppedKeeps(xs[1..], ys, m);
      }
    }
  }

  /** What one pass of the inner eviction walk leaves linked, and the bytes it unlinked. */
  datatype Pass = Pass(kept: seq<Elem>, freed: nat)

  /**
   * The inner walk of `eviction`, with the `next != NULL` test it lacks:
   * from the element at `cache_ptr` (kept), unlink the successor when its
   * stamp is `least` and step past whatever then follows; stop at the
   * tail or past the end.
   */
  function Walk(xs: seq<Elem>, least: nat): (p: Pass)
    requires xs != []
    ensures p.kept != [] && p.kept[0] == xs[0] && |p.kept| <= |xs|
    ensures Sum(p.kept) + p.freed == Sum(xs)
    ensures Dropped(xs, p.kept, least)
    decreases |xs|
  {
    if |xs| == 1 then
      DroppedNone(xs, least);
      Pass(xs, 0)
    else if xs[1].stamp == least then
      if |xs| == 2 then
        assert Dropped(xs[1..], [], least);
        assert Dropped(xs, [xs[0]], least);
        assert Sum(xs) == xs[0].size + xs[1].size by {
          assert xs[1..][1..] == [];
          assert Sum(xs[1..]) == xs[1].size + Sum(xs[1..][1..]);
        }
        assert Sum([xs[0]]) == xs[0].size by {
          assert [xs[0]][1..] == [];
        }
        Pass([xs[0]], xs[1].size)
      else
        var p := Walk(xs[2..], least);
        assert xs[1..][1..] == xs[2..];
        assert Dropped(xs[1..], p.kept, least);
        assert ([xs[0]] + p.kept)[1..] == p.kept;
        SumCons(xs[0], p.kept);
        Pass([xs[0]] + p.kept, xs[1].size + p.freed)
    else
      var p := Walk(xs[1..], least);
      assert ([xs[0]] + p.kept)[1..] == p.kept;
      SumCons(xs[0], p.kept);
      Pass([xs[0]] + p.kept, p.freed)
  }

  /** When some element after the head carries `least`, the walk unlinks at least one element. */
  lemma {:induction false} WalkShrinks(xs: seq<Elem>, least: nat, k: nat)
    requires 1 <= k < |xs| && xs[k].stamp == least
    ensures |Walk(xs, least).kept| < |xs|
    decreases |xs|
  {
    if xs[1].stamp != least {
      assert xs[1..][k - 1] == xs[k];
      WalkShrinks(xs[1..], least, k - 1);
    }
  }

  /**
   * The inner walk as written: when `cache_ptr` reaches the tail without
   * having just unlinked it, `cache_ptr->next->time_stamp` reads through NULL.
   */
  function WalkAsWritten(xs: seq<Elem>, least: nat): (r: Outcome<Pass>)
    requires xs != []
    ensures r.Done? ==> r.value == Walk(xs, least)
    decreases |xs|
  {
    if |xs| == 1 then Fault
    else if xs[1].stamp == least then
      if |xs| == 2 then Done(Pass([xs[0]], xs[1].size))
      else
        match WalkAsWritten(xs[2..], least)
        case Fault => Fault
        case Done(p) => Done(Pass([xs[0]] + p.kept, xs[1].size + p.freed))
    else
      match WalkAsWritten(xs[1..], least)
      case Fault => Fault
      case Done(p) => Done(Pass([xs[0]] + p.kept, p.freed))
  }

  /** A walk over elements none of which carries `least` runs into the tail and faults. */
  lemma {:induction false} WalkNoVictimFaults(xs: seq<Elem>, least: nat)
    requires xs != [] && forall i :: 0 <= i < |xs| ==> xs[i].stamp != least
    ensures WalkAsWritten(xs, least).Fault?
    decreases |xs|
  {
    if |xs| > 1 {
      assert xs[1].stamp != least;
      WalkNoVictimFaults(xs[1..], least);
    }
  }

  /**
   * With a single element stamped `least`, after the head, the walk as
   * written completes exactly when that element is the tail: a victim in
   * the middle sends `cache_ptr` on to the tail, whose `next` is NULL.
   */
  lemma {:induction false} UniqueVictim(xs: seq<Elem>, least: nat, k: nat)
    requires 1 <= k < |xs| && xs[k].stamp == least
    requires forall i :: 0 <= i < |xs| && i != k ==> xs[i].stamp != least
    ensures WalkAsWritten(xs, least).Fault? <==> k < |xs| - 1
    decreases |xs|
  {
    if k == 1 {
      if |xs| > 2 {
        assert forall i :: 0 <= i < |xs[2..]| ==> xs[2..][i] == xs[i + 2];
        WalkNoVictimFaults(xs[2..], least);
      }
    } else {
      assert forall i :: 0 <= i < |xs[1..]| ==> xs[1..][i] == xs[i + 1];
      UniqueVictim(xs[1..], least, k - 1);
    }
  }

  /**
   * One round of the outer eviction loop, given the least stamp: unlink
   * the head when it carries that stamp, and walk the list otherwise. At
   * least one element goes, only elements of the least stamp go, and the
   * bytes not on the list (the object being inserted) stay counted.
   */
  function Round(c: Cache, least: nat): (r: Cache)
    requires c.elems != [] && forall i :: 0 <= i < |c.elems| ==> least <= c.elems[i].stamp
    requires exists i :: 0 <= i < |c.elems| && c.elems[i].stamp == least
    ensures |r.elems| < |c.elems| && r.counter == c.counter
    ensures r.total - Sum(r.elems) == c.total - Sum(c.elems)
    ensures Dropped(c.elems, r.elems, least)
  {
    var xs := c.elems;
    if xs[0].stamp == least then
      DroppedNone(xs[1..], least);
      Cache(xs[1..], c.total - xs[0].size, c.counter)
    else
      var p := Walk(xs, least);
      assert |p.kept| < |xs| by {
        var k :| 0 <= k < |xs| && xs[k].stamp == least;
        WalkShrinks(xs, least, k);
      }
      Cache(p.kept, c.total - p.freed, c.counter)
  }

  /**
   * `eviction`, corrected: rounds run while the total is over budget.
   * The part of the total not on the list (the object about to be
   * linked) is at most the budget, so the list never runs dry first.
   */
  function Eviction(c: Cache): (r: Cache)
    requires Sum(c.elems) <= c.total <= Sum(c.elems) + MAX_CACHE_SIZE
    ensures r.total <= MAX_CACHE_SIZE && r.counter == c.counter
    ensures r.total - Sum(r.elems) == c.total - Sum(c.elems)
    ensures c.total <= MAX_CACHE_SIZE ==> r == c
    ensures |r.elems| <= |c.elems|
    decreases |c.elems|
  {
    if c.total <= MAX_CACHE_SIZE then c
    else Eviction(Round(c, UpdateLeastTime(c.elems)))
  }

  /**
   * Eviction unlinks least-recently-used elements only: for some stamp
   * `m`, every unlinked element is stamped at most `m`, every survivor at
   * least `m`, and the survivors keep their order.
   */
  lemma {:induction false} EvictionLru(c: Cache) returns (m: nat)
    requires Sum(c.elems) <= c.total <= Sum(c.elems) + MAX_CACHE_SIZE
    ensures Dropped(c.elems, Eviction(c).elems, m)
    ensures forall y :: y in Eviction(c).elems ==> m <= y.stamp
    decreases |c.elems|
  {
    if c.total <= MAX_CACHE_SIZE {
      m := 0;
      DroppedNone(c.elems, 0);
    } else {
      var least := UpdateLeastTime(c.elems);
      var c' := Round(c, least);
      var m' := EvictionLru(c');
      m := if least < m' then m' else least;
      var r := Eviction(c');
      assert r == Eviction(c);
      DroppedMono(c.elems, c'.elems, least, m);
      DroppedMono(c'.elems, r.elems, m', m);
      DroppedTrans(c.elems, c'.elems, r.elems, m);
      DroppedKeeps(c.elems, c'.elems, least);
      DroppedKeeps(c'.elems, r.elems, m');
      forall y | y in r.elems
        ensures m <= y.stamp
      {
        assert y in c.elems;
      }
    }
  }

  /** One round as written: the walk may fault. */
  function RoundAsWritten(c: Cache, least: nat): (r: Outcome<Cache>)
    requires c.elems != [] && forall i :: 0 <= i < |c.elems| ==> least <= c.elems[i].stamp
    requires exists i :: 0 <= i < |c.elems| && c.elems[i].stamp == least
    ensures r.Done? ==> r.value == Round(c, least)
  {
    var xs := c.elems;
    if xs[0].stamp == least then Done(Cache(xs[1..], c.total - xs[0].size, c.counter))
    else
      match WalkAsWritten(xs, least)
      case Fault => Fault
      case Done(p) => Done(Cache(p.kept, c.total - p.freed, c.counter))
  }

  /**
   * `eviction` as written. Besides the walk's fault, an over-budget total
   * with an empty list would read the stamp of a NULL head; that happens
   * exactly when the unlisted part of the total alone exceeds the budget.
   */
  function EvictionAsWritten(c: Cache): (r: Outcome<Cache>)
    requires Sum(c.elems) <= c.total
    ensures r.Done? ==> c.total <= Sum(c.elems) + MAX_CACHE_SIZE && r.value == Eviction(c)
    ensures c.total > Sum(c.elems) + MAX_CACHE_SIZE ==> r.Fault?
    decreases |c.elems|
  {
    if c.total <= MAX_CACHE_SIZE then Done(c)
    else if c.elems == [] then Fault
    else
      match RoundAsWritten(c, UpdateLeastTime(c.elems))
      case Fault => Fault
      case Done(c') => EvictionAsWritten(c')
  }

  /** A calloc'd object buffer holding the first `size` bytes of `data`. */
  function Stored(data: seq<Byte>, size: nat): (buf: seq<Byte>)
    requires size <= MAX_OBJECT_SIZE && size <= |data|
    ensures |buf| == MAX_OBJECT_SIZE && buf[..size] == data[..size]
    ensures forall i :: size <= i < MAX_OBJECT_SIZE ==> buf[i] == 0
  {
    data[..size] + seq(MAX_OBJECT_SIZE - size, _ => 0)
  }

  /** The element `insert_to_cache` builds, stamped with the current counter. */
  function NewElem(c: Cache, hostname: string, port: int, uri: string, data: seq<Byte>, size: nat): Elem
    requires size <= MAX_OBJECT_SIZE && size <= |data|
  {
    Elem(c.counter, size, hostname, port, uri, Stored(data, size))
  }

  /**
   * `insert_to_cache`: the new object's size joins the total first; when
   * that is over budget, eviction runs on the old list (the new element is
   * not linked yet); then the new element goes to the head and the counter
   * advances. Afterwards the account is exact and within budget, and an
   * object that fits evicts nothing.
   */
  function InsertToCache(c: Cache, hostname: string, port: int, uri: string, data: seq<Byte>, size: nat): (r: Cache)
    requires TotalOk(c) && size <= MAX_OBJECT_SIZE && size <= |data|
    ensures TotalOk(r) && r.counter == c.counter + 1
    ensures r.elems != [] && r.elems[0] == NewElem(c, hostname, port, uri, data, size)
    ensures 1 <= |r.elems| <= |c.elems| + 1
    ensures c.total + size <= MAX_CACHE_SIZE ==> r.elems[1..] == c.elems
  {
    var e := NewElem(c, hostname, port, uri, data, size);
    var c1 := c.(total := c.total + size);
    var c2 := if c1.total <= MAX_CACHE_SIZE then c1 else Eviction(c1);
    SumCons(e, c2.elems);
    assert ([e] + c2.elems)[1..] == c2.elems;
    Cache([e] + c2.elems, c2.total, c.counter + 1)
  }

  /** The elements an insertion leaves behind the new head were least recently used. */
  lemma InsertLru(c: Cache, hostname: string, port: int, uri: string, data: seq<Byte>, size: nat) returns (m: nat)
    requires TotalOk(c) && size <= MAX_OBJECT_SIZE && size <= |data|
    ensures var r := InsertToCache(c, hostname, port, uri, data, size);
      && Dropped(c.elems, r.elems[1..], m)
      && forall y :: y in r.elems[1..] ==> m <= y.stamp
  {
    var c1 := c.(total := c.total + size);
    m := EvictionLru(c1);
  }

  /** An object just inserted is the first hit for its key, with its bytes intact. */
  lemma LookupAfterInsert(c: Cache, hostname: string, port: int, uri: string, data: seq<Byte>, size: nat)
    requires TotalOk(c) && size <= MAX_OBJECT_SIZE && size <= |data|
    ensures var r := InsertToCache(c, hostname, port, uri, data, size);
      var (c', hit) := CheckCacheList(r, hostname, port, uri);
      && hit == Some(0) && c'.elems[0].data[..size] == data[..size]
      && c'.elems[0].stamp == c.counter + 2
  {
  }

  /** `insert_to_cache` as written, through the faulting eviction. */
  function InsertAsWritten(c: Cache, hostname: string, port: int, uri: string, data: seq<Byte>, size: nat): (r: Outcome<Cache>)
    requires TotalOk(c) && size <= MAX_OBJECT_SIZE && size <= |data|
    ensures r.Done? ==> r.value == InsertToCache(c, hostname, port, uri, data, size)
  {
    var e := NewElem(c, hostname, port, uri, data, size);
    var c1 := c.(total := c.total + size);
    if c1.total <= MAX_CACHE_SIZE then Done(Cache([e] + c1.elems, c1.total, c.counter + 1))
    else
      match EvictionAsWritten(c1)
      case Fault => Fault
      case Done(c2) => Done(Cache([e] + c2.elems, c2.total, c.counter + 1))
  }

  function Sized(stamp: nat, size: nat): Elem
  {
    Elem(stamp, size, "h", 80, "/", [])
  }

  /**
   * A full cache stamped 5, 1, 7 from the head: inserting one byte makes
   * the middle element the victim; the walk as written unlinks it, moves
   * to the tail and dereferences its NULL `next`, while the corrected walk
   * stops there with the total back within budget.
   */
  lemma MiddleVictimFault()
    ensures var c := Cache([Sized(5, 1048900), Sized(1, 50), Sized(7, 50)], 1049000, 8);
      && TotalOk(c)
      && InsertAsWritten(c, "h", 80, "/x", [0], 1).Fault?
      && InsertToCache(c, "h", 80, "/x", [0], 1).elems[1..] == [Sized(5, 1048900), Sized(7, 50)]
  {
    var xs := [Sized(5, 1048900), Sized(1, 50), Sized(7, 50)];
    var c := Cache(xs, 1049000, 8);
    assert Sum(xs) == 1049000 by {
      assert xs[1..] == [Sized(1, 50), Sized(7, 50)];
      assert xs[1..][1..] == [Sized(7, 50)];
      assert xs[1..][1..][1..] == [];
    }
    var c1 := c.(total := c.total + 1);
    assert UpdateLeastTime(xs) == 1 by {
      assert xs[1..] == [Sized(1, 50), Sized(7, 50)];
      assert xs[1..][1..] == [Sized(7, 50)];
      assert xs[1..][1..][1..] == [];
    }
    UniqueVictim(xs, 1, 1);
    assert WalkAsWritten(xs, 1).Fault?;
    assert RoundAsWritten(c1, 1).Fault?;
    var w := Walk(xs, 1);
    assert xs[2..] == [Sized(7, 50)];
    assert w == Pass([Sized(5, 1048900), Sized(7, 50)], 50);
    var c2 := Round(c1, 1);
    assert c2.total == 1048951;
    assert Eviction(c2) == c2;
  }
}
