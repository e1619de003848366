/**
  The icon cache of ColoredIcon (colored_icon.hpp), as values: a map from
  colour to icon handle plus the queue of colours in insertion order.
  The class in colored_icon.dfy keeps its two fields equal to a Cache and
  is proved against the functions here.
 */
module IconCache {
  import opened Gdi

  /** MAX_CACHE_NUM: eviction starts once the queue holds more than this. */
  const MaxCacheNum: nat := 50

  datatype Cache = Cache(icons: map<ColorRef, Handle>, queue: seq<ColorRef>)

  const EmptyCache: Cache := Cache(map[], [])

  predicate NoDup<T(==)>(s: seq<T>)
  {
    forall i, j :: 0 <= i < j < |s| ==> s[i] != s[j]
  }

  /**
    The invariant the cache operations keep: the queue holds each cached
    colour exactly once, its colours are exactly the map's keys, and no
    null handle is cached.
   */
  ghost predicate CacheInv(c: Cache)
  {
    && NoDup(c.queue)
    && (forall k :: k in c.icons <==> k in c.queue)
    && (forall k :: k in c.icons ==> c.icons[k].Icon?)
  }

  /** The ids of the handles a map holds. */
  ghost function HandleIds(m: map<ColorRef, Handle>): set<nat>
  {
    set k | k in m && m[k].Icon? :: m[k].id
  }

  /** No two colours share a handle. */
  ghost predicate DistinctHandles(m: map<ColorRef, Handle>)
  {
    forall k1, k2 :: k1 in m && k2 in m && k1 != k2 ==> m[k1] != m[k2]
  }

  /** release_cache_front: drop the oldest colour from the map (if there) and the queue. */
  function ReleaseFront(c: Cache): (r: Cache)
    requires |c.queue| > 0
    ensures |r.queue| == |c.queue| - 1 && c.queue[0] !in r.icons
    ensures forall k :: k in r.icons <==> k in c.icons && k != c.queue[0]
    ensures forall k :: k in r.icons ==> r.icons[k] == c.icons[k]
  {
    Cache(c.icons - {c.queue[0]}, c.queue[1..])
  }

  /**
    The successful miss of get_icon: when the queue holds more than
    MAX_CACHE_NUM colours, release the oldest first; then append the new
    colour and map it to its handle.
   */
  function Insert(c: Cache, color: ColorRef, icon: Handle): (r: Cache)
    ensures color in r.icons && r.icons[color] == icon && |r.queue| > 0 && r.queue[|r.queue| - 1] == color
    ensures forall k :: k in r.icons && k != color ==> k in c.icons && r.icons[k] == c.icons[k]
  {
    var kept := if |c.queue| > MaxCacheNum then ReleaseFront(c) else c;
    Cache(kept.icons[color := icon], kept.queue + [color])
  }

  /**
    get_icon as a relation between the cache before and after and the
    returned handle: a hit returns the stored handle and changes nothing,
    a failed miss returns null and changes nothing, a successful miss
    inserts.
   */
  predicate GetIconStep(before: Cache, color: ColorRef, after: Cache, icon: Handle)
    ensures GetIconStep(before, color, after, icon) && (color in before.icons || icon.Icon?) ==>
              color in after.icons && after.icons[color] == icon
    ensures GetIconStep(before, color, after, icon) ==>
              forall k :: k in after.icons && k != color ==> k in before.icons && after.icons[k] == before.icons[k]
  {
    if color in before.icons then icon == before.icons[color] && after == before
    else if icon.Null? then after == before
    else after == Insert(before, color, icon)
  }

  /** Releasing the front keeps the invariant and removes exactly the oldest colour. */
  lemma ReleaseFrontKeepsInv(c: Cache)
    requires CacheInv(c) && |c.queue| > 0
    ensures CacheInv(ReleaseFront(c))
    ensures c.queue[0] !in ReleaseFront(c).icons
    ensures forall k :: k in c.icons && k != c.queue[0] ==> k in ReleaseFront(c).icons && ReleaseFront(c).icons[k] == c.icons[k]
  {
    var r := ReleaseFront(c);
    forall k | k in r.queue ensures k in r.icons {
      var i :| 0 <= i < |r.queue| && r.queue[i] == k;
      assert c.queue[i + 1] == k;
    }
    forall k | k in c.icons && k != c.queue[0] ensures k in r.queue {
      var i :| 0 <= i < |c.queue| && c.queue[i] == k;
      assert r.queue[i - 1] == k;
    }
  }

  /**
    A successful miss keeps the invariant; the queue grows by one until it
    holds MAX_CACHE_NUM + 1 colours and then stays at that length.
   */
  lemma InsertKeepsInv(c: Cache, color: ColorRef, icon: Handle)
    requires CacheInv(c) && color !in c.icons && icon.Icon?
    ensures CacheInv(Insert(c, color, icon))
    ensures |Insert(c, color, icon).queue| == if |c.queue| > MaxCacheNum then |c.queue| else |c.queue| + 1
    ensures |c.queue| <= MaxCacheNum + 1 ==> |Insert(c, color, icon).queue| <= MaxCacheNum + 1
  {
    var kept := if |c.queue| > MaxCacheNum then ReleaseFront(c) else c;
    if |c.queue| > MaxCacheNum {
      ReleaseFrontKeepsInv(c);
    }
    assert CacheInv(kept) && color !in kept.queue;
    var r := Insert(c, color, icon);
    assert r.queue == kept.queue + [color];
    forall i, j | 0 <= i < j < |r.queue| ensures r.queue[i] != r.queue[j] {
      if j == |r.queue| - 1 {
        assert r.queue[i] == kept.queue[i];
      }
    }
  }

  /**
    Which colours a successful miss keeps: every cached colour stays with
    its handle, except that the oldest one is gone when the queue held
    more than MAX_CACHE_NUM colours.
   */
  lemma InsertEvictsOnlyOldest(c: Cache, color: ColorRef, icon: Handle)
    requires CacheInv(c) && color !in c.icons && icon.Icon?
    ensures color in Insert(c, color, icon).icons && Insert(c, color, icon).icons[color] == icon
    ensures |c.queue| > MaxCacheNum ==> c.queue[0] !in Insert(c, color, icon).icons
    ensures forall k :: k in c.icons && (|c.queue| > MaxCacheNum ==> k != c.queue[0]) ==>
              k in Insert(c, color, icon).icons && Insert(c, color, icon).icons[k] == c.icons[k]
  {
    if |c.queue| > MaxCacheNum {
      ReleaseFrontKeepsInv(c);
      assert c.queue[0] != color;
    }
  }

  /** A cache holds as many entries as its queue has colours. */
  lemma CacheSize(c: Cache)
    requires CacheInv(c)
    ensures |c.icons| == |c.queue|
  {
    assert c.icons.Keys == set k | k in c.queue;
    NoDupSetSize(c.queue);
  }

  lemma {:induction false} NoDupSetSize<T>(s: seq<T>)
    requires NoDup(s)
    ensures |set k | k in s| == |s|
  {
    if s != [] {
      NoDupSetSize(s[1..]);
      assert (set k | k in s) == {s[0]} + (set k | k in s[1..]);
      assert s[0] !in s[1..];
    }
  }

  /** A get_icon step keeps the invariant and the bound MAX_CACHE_NUM + 1 on the size. */
  lemma GetIconStepKeepsInv(before: Cache, color: ColorRef, after: Cache, icon: Handle)
    requires CacheInv(before) && |before.queue| <= MaxCacheNum + 1
    requires GetIconStep(before, color, after, icon)
    ensures CacheInv(after) && |after.queue| <= MaxCacheNum + 1 && |after.icons| <= MaxCacheNum + 1
  {
    if color !in before.icons && icon.Icon? {
      InsertKeepsInv(before, color, icon);
    }
    CacheSize(after);
  }

  /**
    Asking twice for the same colour gives the same handle the second
    time, and the second call changes nothing, once the first succeeded.
   */
  lemma GetIconIdempotent(c0: Cache, color: ColorRef, c1: Cache, icon1: Handle, c2: Cache, icon2: Handle)
    requires GetIconStep(c0, color, c1, icon1) && icon1.Icon?
    requires GetIconStep(c1, color, c2, icon2)
    ensures icon2 == icon1 && c2 == c1
  {
  }

  /** The cache after a series of successful misses, oldest first. */
  function InsertAll(c: Cache, colors: seq<ColorRef>, icons: seq<Handle>): Cache
    requires |colors| == |icons|
  {
    if colors == [] then c
    else Insert(InsertAll(c, colors[..|colors| - 1], icons[..|icons| - 1]), colors[|colors| - 1], icons[|icons| - 1])
  }

  /** Index of the oldest colour still cached after n distinct inserts into an empty cache. */
  function WindowStart(n: nat): nat
  {
    if n > MaxCacheNum + 1 then n - (MaxCacheNum + 1) else 0
  }

  /**
    The cache holds exactly colors[w..], in that order, each colour mapped
    to the handle it was inserted with.
   */
  ghost predicate HoldsWindow(c: Cache, colors: seq<ColorRef>, icons: seq<Handle>, w: nat)
    requires |colors| == |icons|
  {
    && CacheInv(c)
    && w <= |colors|
    && c.queue == colors[w..]
    && forall i :: w <= i < |colors| ==> colors[i] in c.icons && c.icons[colors[i]] == icons[i]
  }

  /**
    FIFO eviction: after inserting distinct colours into an empty cache,
    the queue holds exactly the last MAX_CACHE_NUM + 1 of them in order,
    and each is mapped to the handle it was inserted with.
   */
  lemma {:induction false} FifoWindow(colors: seq<ColorRef>, icons: seq<Handle>)
    requires |colors| == |icons| && NoDup(colors)
    requires forall i :: 0 <= i < |icons| ==> icons[i].Icon?
    ensures HoldsWindow(InsertAll(EmptyCache, colors, icons), colors, icons, WindowStart(|colors|))
  {
    var n := |colors|;
    if n > 0 {
      var cs, hs := colors[..n - 1], icons[..n - 1];
      assert NoDup(cs);
      FifoWindow(cs, hs);
      var prev := InsertAll(EmptyCache, cs, hs);
      FifoWindowStep(prev, colors, icons);
    }
  }

  /** The inductive step of FifoWindow: one more distinct colour. */
  lemma FifoWindowStep(prev: Cache, colors: seq<ColorRef>, icons: seq<Handle>)
    requires |colors| == |icons| > 0 && NoDup(colors)
    requires icons[|icons| - 1].Icon?
    requires HoldsWindow(prev, colors[..|colors| - 1], icons[..|icons| - 1], WindowStart(|colors| - 1))
    ensures HoldsWindow(Insert(prev, colors[|colors| - 1], icons[|icons| - 1]), colors, icons, WindowStart(|colors|))
  {
    var n := |colors|;
    var color, icon := colors[n - 1], icons[n - 1];
    var w0, w1 := WindowStart(n - 1), WindowStart(n);
    WindowPrefix(prev, colors, icons, w0);
    var next := Insert(prev, color, icon);
    WindowQueueStep(prev, colors, color, icon);
    InsertKeepsInv(prev, color, icon);
    WindowMapStep(prev, colors, icons);
  }

  /** A window over the colours but the last, restated over the whole sequence. */
  lemma WindowPrefix(prev: Cache, colors: seq<ColorRef>, icons: seq<Handle>, w: nat)
    requires |colors| == |icons| > 0 && NoDup(colors)
    requires HoldsWindow(prev, colors[..|colors| - 1], icons[..|icons| - 1], w)
    ensures CacheInv(prev) && w < |colors|
    ensures prev.queue == colors[w..|colors| - 1]
    ensures forall i :: w <= i < |colors| - 1 ==> colors[i] in prev.icons && prev.icons[colors[i]] == icons[i]
    ensures colors[|colors| - 1] !in prev.icons
  {
    var n := |colors|;
    forall i | w <= i < n - 1 ensures colors[i] in prev.icons && prev.icons[colors[i]] == icons[i] {
      assert colors[..n - 1][i] == colors[i] && icons[..n - 1][i] == icons[i];
    }
    forall i | 0 <= i < |prev.queue| ensures prev.queue[i] != colors[n - 1] {
      assert prev.queue[i] == colors[w + i];
    }
  }

  lemma WindowQueueStep(prev: Cache, colors: seq<ColorRef>, color: ColorRef, icon: Handle)
    requires |colors| > 0 && color == colors[|colors| - 1]
    requires prev.queue == colors[WindowStart(|colors| - 1)..|colors| - 1]
    ensures Insert(prev, color, icon).queue == colors[WindowStart(|colors|)..]
  {
    var n := |colors|;
    var w0, w1 := WindowStart(n - 1), WindowStart(n);
    var next := Insert(prev, color, icon);
    if |prev.queue| > MaxCacheNum {
      assert next.queue == prev.queue[1..] + [color];
      assert w1 == w0 + 1;
      assert prev.queue[1..] == colors[w1..n - 1];
    } else {
      assert next.queue == prev.queue + [color];
      assert w1 == w0;
    }
    assert colors[w1..] == colors[w1..n - 1] + [color];
  }

  lemma WindowMapStep(prev: Cache, colors: seq<ColorRef>, icons: seq<Handle>)
    requires |colors| == |icons| > 0 && NoDup(colors) && icons[|icons| - 1].Icon?
    requires CacheInv(prev) && colors[|colors| - 1] !in prev.icons
    requires prev.queue == colors[WindowStart(|colors| - 1)..|colors| - 1]
    requires forall i :: WindowStart(|colors| - 1) <= i < |colors| - 1 ==>
               colors[i] in prev.icons && prev.icons[colors[i]] == icons[i]
    ensures forall i :: WindowStart(|colors|) <= i < |colors| ==>
              colors[i] in Insert(prev, colors[|colors| - 1], icons[|icons| - 1]).icons &&
              Insert(prev, colors[|colors| - 1], icons[|icons| - 1]).icons[colors[i]] == icons[i]
  {
    var n := |colors|;
    var color, icon := colors[n - 1], icons[n - 1];
    var w0, w1 := WindowStart(n - 1), WindowStart(n);
    var next := Insert(prev, color, icon);
    assert color in next.icons && next.icons[color] == icon;
    var evict := |prev.queue| > MaxCacheNum;
    assert |prev.queue| == n - 1 - w0;
    assert evict ==> prev.queue[0] == colors[w0];
    forall i | w1 <= i < n - 1
      ensures colors[i] in next.icons && next.icons[colors[i]] == icons[i]
    {
      assert colors[i] in prev.icons && prev.icons[colors[i]] == icons[i];
      assert evict ==> i != w0;
      InsertKeepsOther(prev, color, icon, colors[i]);
    }
  }

  /** One colour other than the evicted one keeps its handle across a successful miss. */
  lemma InsertKeepsOther(c: Cache, color: ColorRef, icon: Handle, k: ColorRef)
    requires CacheInv(c) && color !in c.icons && icon.Icon?
    requires k in c.icons && (|c.queue| > MaxCacheNum ==> k != c.queue[0])
    ensures k in Insert(c, color, icon).icons && Insert(c, color, icon).icons[k] == c.icons[k]
  {
    InsertEvictsOnlyOldest(c, color, icon);
  }

  /**
    The eviction threshold is "more than MAX_CACHE_NUM": 51 distinct
    colours all stay cached, and the first is evicted by the 52nd.
   */
  lemma FirstEvictedOnFiftySecond(colors: seq<ColorRef>, icons: seq<Handle>)
    requires |colors| == |icons| && NoDup(colors)
    requires forall i :: 0 <= i < |icons| ==> icons[i].Icon?
    ensures |colors| <= MaxCacheNum + 1 ==> forall i :: 0 <= i < |colors| ==> colors[i] in InsertAll(EmptyCache, colors, icons).icons
    ensures |colors| == MaxCacheNum + 2 ==> colors[0] !in InsertAll(EmptyCache, colors, icons).icons
  {
    FifoWindow(colors, icons);
  }

  /**
    The cache as ColoredIcon keeps it: the invariant, at most
    MAX_CACHE_NUM + 1 colours, and distinct handles that are all live.
   */
  ghost predicate Tracked(c: Cache, live: set<nat>)
  {
    && CacheInv(c)
    && |c.queue| <= MaxCacheNum + 1
    && DistinctHandles(c.icons)
    && HandleIds(c.icons) <= live
  }

  /**
    A successful miss in terms of handles. The new handle is live and not
    cached; kept is the cache after the optional eviction and live1 the
    live set at that point. The cache after the insert is still tracked,
    and the live set differs from the one at the start exactly by the
    handles the cache dropped and gained.
   */
  lemma InsertTracksHandles(before: Cache, color: ColorRef, icon: Handle, live: set<nat>, kept: Cache, live1: set<nat>)
    requires Tracked(before, live)
    requires color !in before.icons && icon.Icon? && icon.id in live && icon.id !in HandleIds(before.icons)
    requires kept == if |before.queue| > MaxCacheNum then ReleaseFront(before) else before
    requires Tracked(kept, live1) && HandleIds(kept.icons) <= HandleIds(before.icons)
    requires live1 == live - HandleIds(before.icons) + HandleIds(kept.icons)
    ensures Insert(before, color, icon) == Cache(kept.icons[color := icon], kept.queue + [color])
    ensures Tracked(Insert(before, color, icon), live1)
    ensures live1 == live - HandleIds(before.icons) + HandleIds(Insert(before, color, icon).icons)
  {
    InsertKeepsInv(before, color, icon);
    if |before.queue| > MaxCacheNum {
      ReleaseFrontKeepsInv(before);
    }
    assert color !in kept.icons;
    HandleIdsAdd(kept.icons, color, icon);
  }

  lemma HandleIdsRemove(m: map<ColorRef, Handle>, k: ColorRef)
    requires k in m && m[k].Icon? && DistinctHandles(m)
    ensures HandleIds(m - {k}) == HandleIds(m) - {m[k].id}
  {
    var r := m - {k};
    forall id | id in HandleIds(m) - {m[k].id} ensures id in HandleIds(r) {
      var j :| j in m && m[j].Icon? && m[j].id == id;
      assert j != k && r[j] == m[j];
    }
    forall id | id in HandleIds(r) ensures id in HandleIds(m) - {m[k].id} {
      var j :| j in r && r[j].Icon? && r[j].id == id;
      assert j in m && m[j] != m[k];
    }
  }

  lemma HandleIdsAdd(m: map<ColorRef, Handle>, k: ColorRef, h: Handle)
    requires k !in m && h.Icon?
    ensures HandleIds(m[k := h]) == HandleIds(m) + {h.id}
  {
    var n := m[k := h];
    forall id | id in HandleIds(m) ensures id in HandleIds(n) {
      var j :| j in m && m[j].Icon? && m[j].id == id;
      assert n[j] == m[j];
    }
    assert n[k].id == h.id;
  }
}
