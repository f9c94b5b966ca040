/**
 * The bounded file-handle pool: two maps and a stamp counter that behave as a least-recently-used
 * list, and the storage views that route every read and write through it.
 */
module FilePool {
  import opened Words
  import opened Files
  import opened Recency

  /** A cached open file: the inode it holds and the path it was opened for. */
  datatype Handle = Handle(inode: Inode, path: Path)

  /** The part of a storage view that fixes the paths of its keys. */
  datatype Layout = Layout(folder: Path, files: seq<Option<Path>>)

  function Join(folder: Path, relative: Path): Path {
    folder + "/" + relative
  }

  function PathOf(layout: Layout, file: nat): Option<Path> {
    if file < |layout.files| && layout.files[file].Some? then Some(Join(layout.folder, layout.files[file].value)) else None
  }

  /** `recent` lists the stamped keys, newest first: its last key has the strictly least stamp. */
  ghost predicate StampOrder(recent: seq<Key>, stamps: map<Key, nat>) {
    if recent == [] then stamps == map[]
    else
      var last := recent[|recent| - 1];
      && last in stamps
      && (forall k :: k in stamps && k != last ==> stamps[last] < stamps[k])
      && StampOrder(recent[..|recent| - 1], stamps - {last})
  }

  lemma {:induction false} StampedKeys(recent: seq<Key>, stamps: map<Key, nat>)
    requires StampOrder(recent, stamps)
    ensures |stamps| == |recent|
  {
    if recent != [] {
      var rest, last := recent[..|recent| - 1], recent[|recent| - 1];
      StampedKeys(rest, stamps - {last});
      assert (stamps - {last}).Keys == stamps.Keys - {last};
    }
  }

  lemma {:induction false} StampedKey(recent: seq<Key>, stamps: map<Key, nat>, k: Key)
    requires StampOrder(recent, stamps)
    ensures k in recent <==> k in stamps
  {
    if recent != [] {
      var rest, last := recent[..|recent| - 1], recent[|recent| - 1];
      StampedKey(rest, stamps - {last}, k);
      assert recent == rest + [last];
    }
  }

  lemma {:induction false} StampedOnce(recent: seq<Key>, stamps: map<Key, nat>)
    requires StampOrder(recent, stamps)
    ensures NoRepeat(recent)
  {
    if recent != [] {
      var rest, last := recent[..|recent| - 1], recent[|recent| - 1];
      StampedOnce(rest, stamps - {last});
      StampedKey(rest, stamps - {last}, last);
      assert recent == rest + [last];
    }
  }

  lemma WithoutLast(rest: seq<Key>, last: Key, k: Key)
    requires NoRepeat(rest + [last])
    ensures Without(rest + [last], k) == if k == last then rest else Without(rest, k) + [last]
  {
    var s := rest + [last];
    if k == last {
      assert s[|rest|] == k;
      IndexIs(s, k, |rest|);
    } else if k in rest {
      var i := IndexOf(rest, k);
      assert s[i] == k;
      IndexIs(s, k, i);
      assert s[..i] + s[i + 1..] == rest[..i] + rest[i + 1..] + [last];
    }
  }

  lemma OrderWithLast(rest: seq<Key>, last: Key, stamps: map<Key, nat>)
    requires last in stamps && (forall k :: k in stamps && k != last ==> stamps[last] < stamps[k])
    requires StampOrder(rest, stamps - {last})
    ensures StampOrder(rest + [last], stamps)
  {
    assert (rest + [last])[..|rest|] == rest;
  }

  /** Dropping a key drops it from the order. */
  lemma {:induction false} StampDropped(recent: seq<Key>, stamps: map<Key, nat>, k: Key)
    requires StampOrder(recent, stamps)
    ensures StampOrder(Without(recent, k), stamps - {k})
  {
    StampedOnce(recent, stamps);
    if recent != [] {
      var rest, last := recent[..|recent| - 1], recent[|recent| - 1];
      assert recent == rest + [last];
      WithoutLast(rest, last, k);
      if k != last {
        StampDropped(rest, stamps - {last}, k);
        assert stamps - {k} - {last} == stamps - {last} - {k};
        OrderWithLast(Without(rest, k), last, stamps - {k});
      }
    } else {
      assert stamps - {k} == map[];
    }
  }

  /** A key with the newest stamp goes in front. */
  lemma {:induction false} StampInFront(rest: seq<Key>, stamps: map<Key, nat>, k: Key, stamp: nat)
    requires StampOrder(rest, stamps) && k !in stamps && forall x :: x in stamps ==> stamps[x] < stamp
    ensures StampOrder([k] + rest, stamps[k := stamp])
  {
    if rest == [] {
      assert ([k] + rest)[..0] == [];
      assert map[k := stamp] - {k} == map[];
    } else {
      var front, last := rest[..|rest| - 1], rest[|rest| - 1];
      StampInFront(front, stamps - {last}, k, stamp);
      PutThenDrop(stamps, k, stamp, last);
      OrderWithLast([k] + front, last, stamps[k := stamp]);
      assert [k] + front + [last] == [k] + rest;
    }
  }

  lemma PutThenDrop(stamps: map<Key, nat>, k: Key, stamp: nat, last: Key)
    requires k != last
    ensures stamps[k := stamp] - {last} == (stamps - {last})[k := stamp]
  {
  }

  lemma PutAfterDrop(stamps: map<Key, nat>, k: Key, stamp: nat)
    ensures (stamps - {k})[k := stamp] == stamps[k := stamp]
  {
  }

  /** A newer stamp moves its key to the front. */
  lemma StampMovesToFront(recent: seq<Key>, stamps: map<Key, nat>, k: Key, stamp: nat)
    requires StampOrder(recent, stamps) && forall x :: x in stamps ==> stamps[x] < stamp
    ensures StampOrder([k] + Without(recent, k), stamps[k := stamp])
  {
    StampDropped(recent, stamps, k);
    StampInFront(Without(recent, k), stamps - {k}, k, stamp);
    PutAfterDrop(stamps, k, stamp);
  }

  /**
   * Every cached handle names the inode now at its path, and its path is the one its key stands for.
   */
  ghost predicate Coherent(handles: map<Key, Handle>, names: map<Path, Inode>, layouts: map<nat, Layout>) {
    forall k :: k in handles ==>
      && handles[k].path in names
      && names[handles[k].path] == handles[k].inode
      && k.uid in layouts
      && PathOf(layouts[k.uid], k.file) == Some(handles[k].path)
  }

  /** The two maps describe one recency list. */
  ghost predicate Linked(recent: seq<Key>, handles: map<Key, Handle>, stamps: map<Key, nat>, stamp: nat) {
    && StampOrder(recent, stamps)
    && handles.Keys == stamps.Keys
    && (forall k :: k in stamps ==> stamps[k] < stamp)
  }

  lemma CoherenceInherited(handles: map<Key, Handle>, from: map<Key, Handle>, names: map<Path, Inode>, layouts: map<nat, Layout>)
    requires Coherent(from, names, layouts) && Inherits(handles, from)
    ensures Coherent(handles, names, layouts)
  {
  }

  lemma CoherenceExtended(handles: map<Key, Handle>, from: map<Key, Handle>, names: map<Path, Inode>, layouts: map<nat, Layout>, k: Key)
    requires Coherent(from, names, layouts) && Inherits(handles - {k}, from) && k in handles
    requires handles[k].path in names && names[handles[k].path] == handles[k].inode
    requires k.uid in layouts && PathOf(layouts[k.uid], k.file) == Some(handles[k].path)
    ensures Coherent(handles, names, layouts)
  {
    forall j | j in handles && j != k ensures j in from && handles[j] == from[j] {
      assert j in handles - {k};
    }
  }

  /** Nothing was added or reopened. */
  ghost predicate Inherits(handles: map<Key, Handle>, from: map<Key, Handle>) {
    forall k :: k in handles ==> k in from && handles[k] == from[k]
  }

  lemma LiveCount(recent: seq<Key>, handles: map<Key, Handle>, stamps: map<Key, nat>, stamp: nat)
    requires Linked(recent, handles, stamps, stamp)
    ensures |handles| == |recent|
  {
    StampedKeys(recent, stamps);
    assert |handles.Keys| == |stamps.Keys|;
  }

  lemma CachedKey(recent: seq<Key>, handles: map<Key, Handle>, stamps: map<Key, nat>, stamp: nat, k: Key)
    requires Linked(recent, handles, stamps, stamp)
    ensures k in recent <==> k in handles
  {
    StampedKey(recent, stamps, k);
  }

  /** Evicting the least stamp shortens the list by its last key and keeps everything linked. */
  lemma EvictionKeepsLinks(recent: seq<Key>, handles: map<Key, Handle>, stamps: map<Key, nat>, stamp: nat, victim: Key)
    requires Linked(recent, handles, stamps, stamp)
    requires victim in stamps && forall k :: k in stamps ==> stamps[victim] <= stamps[k]
    ensures recent != [] && victim == recent[|recent| - 1]
    ensures Linked(recent[..|recent| - 1], handles - {victim}, stamps - {victim}, stamp)
  {
  }

  lemma TouchKeepsLinks(recent: seq<Key>, handles: map<Key, Handle>, stamps: map<Key, nat>, stamp: nat, k: Key, h: Handle)
    requires Linked(recent, handles, stamps, stamp)
    ensures Linked([k] + Without(recent, k), handles[k := h], stamps[k := stamp], stamp + 1)
  {
    StampMovesToFront(recent, stamps, k, stamp);
  }

  class Pool {
    const cap: nat
    const fs: FileSystem
    var handles: map<Key, Handle>
    var stamps: map<Key, nat>
    var stamp: nat
    var opens: nat
    var evictions: nat
    var nextUid: nat

    /** The keys, newest first; the deletions' share of the evictions; every view's layout. */
    ghost var recent: seq<Key>
    ghost var swept: nat
    ghost var layouts: map<nat, Layout>
    /** The successful lookups, and whether none was disturbed by shedding or deletion. */
    ghost var trace: seq<Key>
    ghost var undisturbed: bool

    ghost predicate Valid()
      reads this, fs
    {
      Sound() && Coherent(handles, fs.names, layouts)
    }

    /** Everything that does not mention the file system. */
    ghost predicate Sound()
      reads this
    {
      Counted() && (undisturbed ==> recent == Touches(trace, cap))
    }

    /** Linked maps within the cap, and every handle opened is live, evicted or swept. */
    ghost predicate Counted()
      reads this
    {
      && cap > 0
      && Linked(recent, handles, stamps, stamp)
      && |recent| <= cap
      && opens == |recent| + evictions + swept
      && (forall u :: u in layouts ==> u < nextUid)
    }

    constructor (fs: FileSystem, cap: nat)
      ensures Valid() && this.fs == fs && this.cap == Max(cap, 1)
      ensures handles == map[] && recent == [] && layouts == map[] && nextUid == 0 && undisturbed
    {
      this.fs, this.cap := fs, Max(cap, 1);
      handles, stamps, stamp, opens, evictions, nextUid := map[], map[], 0, 0, 0, 0;
      recent, swept, layouts, trace, undisturbed := [], 0, map[], [], true;
    }

    /** A process-unique id for a new storage view. */
    method NextUid(ghost folder: Path) returns (uid: nat)
      requires Valid()
      modifies this`nextUid, this`layouts
      ensures Valid() && uid == old(nextUid) && uid !in old(layouts)
      ensures layouts == old(layouts)[uid := Layout(folder, [])]
    {
      uid := nextUid;
      nextUid := nextUid + 1;
      layouts := layouts[uid := Layout(folder, [])];
    }

    /** A view without files takes its file list. */
    ghost method Describe(uid: nat, files: seq<Option<Path>>)
      requires Valid() && uid in layouts && layouts[uid].files == []
      modifies this`layouts
      ensures Valid() && layouts == old(layouts)[uid := Layout(old(layouts)[uid].folder, files)]
    {
      layouts := layouts[uid := Layout(layouts[uid].folder, files)];
    }

    /** Opens issued, evictions counted, live handles, cap. */
    method Stats() returns (issued: nat, evicted: nat, live: nat, limit: nat)
      requires Valid()
      ensures issued == live + evicted + swept
      ensures live == |handles| <= limit == cap
    {
      LiveCount(recent, handles, stamps, stamp);
      return opens, evictions, |handles|, cap;
    }

    method Evict(key: Key)
      modifies this`handles, this`stamps
      ensures handles == old(handles) - {key} && stamps == old(stamps) - {key}
    {
      handles := handles - {key};
      stamps := stamps - {key};
    }

    /** The key with the least stamp. */
    method Oldest() returns (victim: Option<Key>)
      requires Linked(recent, handles, stamps, stamp)
      ensures victim.None? <==> recent == []
      ensures victim.Some? ==> victim.value in stamps && forall k :: k in stamps ==> stamps[victim.value] <= stamps[k]
    {
      if stamps == map[] {
        StampedKeys(recent, stamps);
        return None;
      }
      assert recent[|recent| - 1] in stamps;
      var k :| k in stamps && forall j :: j in stamps ==> stamps[k] <= stamps[j];
      return Some(k);
    }

    /** Evict the handle with the least stamp, counting it. */
    method Shed(victim: Key)
      requires Linked(recent, handles, stamps, stamp)
      requires victim in stamps && forall k :: k in stamps ==> stamps[victim] <= stamps[k]
      modifies this`handles, this`stamps, this`evictions, this`recent
      ensures Linked(recent, handles, stamps, stamp)
      ensures old(recent) != [] && recent == old(recent)[..|old(recent)| - 1]
      ensures Inherits(handles, old(handles))
      ensures evictions == old(evictions) + 1
    {
      EvictionKeepsLinks(recent, handles, stamps, stamp, victim);
      Evict(victim);
      recent := recent[..|recent| - 1];
      evictions := evictions + 1;
    }

    /**
     * Make room, then cache the handle under a fresh stamp. The guards of the eviction loop are the
     * source's; neither of its breaks is ever taken.
     */
    method Insert(key: Key, h: Handle)
      requires cap > 0 && Linked(recent, handles, stamps, stamp) && key !in handles && |recent| <= cap
      modifies this`handles, this`stamps, this`stamp, this`evictions, this`recent
      ensures Linked(recent, handles, stamps, stamp)
      ensures recent == Touch(old(recent), key, cap) && |recent| <= cap
      ensures key in handles && handles[key] == h && Inherits(handles - {key}, old(handles))
      ensures |recent| + evictions == |old(recent)| + old(evictions) + 1
    {
      MakeRoom(key);
      assert key !in old(recent) by {
        CachedKey(old(recent), old(handles), old(stamps), old(stamp), key);
      }
      Stamp(key, h);
    }

    method MakeRoom(key: Key)
      requires cap > 0 && Linked(recent, handles, stamps, stamp) && key !in handles && |recent| <= cap
      modifies this`handles, this`stamps, this`evictions, this`recent
      ensures Linked(recent, handles, stamps, stamp)
      ensures recent == old(recent)[..Min(|old(recent)|, cap - 1)]
      ensures Inherits(handles, old(handles))
      ensures evictions == old(evictions) + (if |old(recent)| == cap then 1 else 0)
    {
      LiveCount(recent, handles, stamps, stamp);
      ghost var was := recent;
      while |handles| >= cap
        invariant Linked(recent, handles, stamps, stamp)
        invariant |handles| == |recent| <= |was| && recent == was[..|recent|]
        invariant |recent| >= Min(|was|, cap - 1)
        invariant Inherits(handles, old(handles))
        invariant evictions == old(evictions) + (|was| - |recent|)
        decreases |handles|
      {
        var victim := Oldest();
        if victim.None? {
          assert false;
          break;
        }
        if victim.value == key {
          assert false;
          break;
        }
        Shed(victim.value);
        LiveCount(recent, handles, stamps, stamp);
      }
    }

    /** Give `key` the newest stamp. */
    method Stamp(key: Key, h: Handle)
      requires Linked(recent, handles, stamps, stamp)
      modifies this`handles, this`stamps, this`stamp, this`recent
      ensures Linked(recent, handles, stamps, stamp)
      ensures recent == [key] + Without(old(recent), key)
      ensures handles == old(handles)[key := h]
    {
      TouchKeepsLinks(recent, handles, stamps, stamp, key, h);
      stamps := stamps[key := stamp];
      stamp := stamp + 1;
      handles := handles[key := h];
      recent := [key] + Without(recent, key);
    }

    /**
     * `get_or_open`, with its effect on the file system's names: whatever the pool answers is what
     * opening the path afresh would have found.
     */
    method GetOrOpen(key: Key, path: Path, free1: bool, free2: bool) returns (r: OpenResult)
      requires Valid() && key.uid in layouts && PathOf(layouts[key.uid], key.file) == Some(path)
      modifies this
      ensures Valid() && layouts == old(layouts) && nextUid == old(nextUid) && swept == old(swept)
      ensures r.Opened? ==> path in fs.names && r.inode == fs.names[path]
      ensures r.NotFound? ==> path !in fs.names
      ensures key in old(handles) || free1 || free2 ==> (r.Opened? <==> path in fs.names)
    {
      r := Lookup(key, path, free1, free2);
      if r.Opened? {
        CoherenceExtended(handles, old(handles), fs.names, layouts, key);
      } else {
        CoherenceInherited(handles, old(handles), fs.names, layouts);
      }
    }

    /** The lookup itself. The two flags say whether a descriptor is free at each attempt to open. */
    method Lookup(key: Key, path: Path, free1: bool, free2: bool) returns (r: OpenResult)
      requires Sound()
      modifies this`handles, this`stamps, this`stamp, this`evictions, this`recent, this`opens, this`trace, this`undisturbed
      ensures Sound()
      ensures r == if key in old(handles) then Opened(old(handles)[key].inode)
                   else if free1 then fs.Open(path, true) else fs.Open(path, free2)
      ensures Inherits(handles - {key}, old(handles))
      ensures r.Opened? ==> key in handles && handles[key] == if key in old(handles) then old(handles)[key] else Handle(r.inode, path)
      ensures !r.Opened? ==> Inherits(handles, old(handles))
      ensures opens == old(opens) + (if r.Opened? && key !in old(handles) then 1 else 0)
      ensures free1 || key in old(handles) ==>
                && undisturbed == old(undisturbed)
                && trace == (if r.Opened? then old(trace) + [key] else old(trace))
                && recent == (if r.Opened? then Touch(old(recent), key, cap) else old(recent))
      ensures !free1 && key !in old(handles) ==>
                recent == if r.Opened? then Touch(AfterShedding(old(recent)), key, cap) else AfterShedding(old(recent))
    {
      if key in handles {
        Hit(key);
        return Opened(handles[key].inode);
      }
      r := Attempt(key, path, free1);
      if r != TooManyFiles {
        if r.Opened? {
          Looked(key);
        }
        return r;
      }
      r := Retry(key, path, free2);
    }

    /** Out of descriptors: shed, then open once more. */
    method Retry(key: Key, path: Path, free: bool) returns (r: OpenResult)
      requires Sound() && key !in handles
      modifies this`handles, this`stamps, this`stamp, this`evictions, this`recent, this`opens, this`undisturbed
      ensures Sound()
      ensures r == fs.Open(path, free)
      ensures opens == old(opens) + (if r.Opened? then 1 else 0)
      ensures recent == if r.Opened? then Touch(AfterShedding(old(recent)), key, cap) else AfterShedding(old(recent))
      ensures Inherits(handles - {key}, old(handles))
      ensures if r.Opened? then key in handles && handles[key] == Handle(r.inode, path) else Inherits(handles, old(handles))
    {
      undisturbed := false;
      ShedQuarter();
      r := Attempt(key, path, free);
    }

    /**
     * What is left of the recency list: the least recently used went, as many as a quarter of the cap
     * and at least one, or all there were.
     */
    function AfterShedding(recent: seq<Key>): (kept: seq<Key>)
      ensures kept <= recent
      ensures var gone := |recent| - |kept|;
              && (gone <= 1 || 4 * gone <= cap)
              && (kept != [] ==> gone >= 1 && cap < 4 * (gone + 1))
    {
      recent[..SatSub(|recent|, Max(cap / 4, 1))]
    }

    method Hit(key: Key)
      requires Sound() && key in handles
      modifies this`handles, this`stamps, this`stamp, this`recent, this`trace
      ensures Sound() && handles == old(handles)
      ensures recent == Touch(old(recent), key, cap) && trace == old(trace) + [key]
    {
      CachedKey(recent, handles, stamps, stamp, key);
      LiveCount(recent, handles, stamps, stamp);
      Stamp(key, handles[key]);
      LiveCount(recent, handles, stamps, stamp);
      Looked(key);
    }

    ghost method Looked(key: Key)
      requires cap > 0
      requires undisturbed ==> recent == Touch(Touches(trace, cap), key, cap)
      modifies this`trace
      ensures trace == old(trace) + [key]
      ensures undisturbed ==> recent == Touches(trace, cap)
    {
      assert (trace + [key])[..|trace|] == trace;
      trace := trace + [key];
    }

    /** One open; a success is counted and inserted. */
    method Attempt(key: Key, path: Path, free: bool) returns (r: OpenResult)
      requires Counted() && key !in handles
      modifies this`handles, this`stamps, this`stamp, this`evictions, this`recent, this`opens
      ensures Counted()
      ensures r == fs.Open(path, free)
      ensures opens == old(opens) + (if r.Opened? then 1 else 0)
      ensures recent == if r.Opened? then Touch(old(recent), key, cap) else old(recent)
      ensures if r.Opened? then key in handles && handles[key] == Handle(r.inode, path) && Inherits(handles - {key}, old(handles))
              else handles == old(handles)
    {
      r := fs.Open(path, free);
      if r.Opened? {
        opens := opens + 1;
        Insert(key, Handle(r.inode, path));
      }
    }

    /** On descriptor exhaustion a quarter of the cap is evicted, at least one handle. */
    method ShedQuarter()
      requires Counted()
      modifies this`handles, this`stamps, this`evictions, this`recent
      ensures Counted()
      ensures recent == AfterShedding(old(recent))
      ensures evictions == old(evictions) + (|old(recent)| - |recent|)
      ensures Inherits(handles, old(handles))
    {
      var shed := Max(cap / 4, 1);
      ghost var was := recent;
      for i := 0 to shed
        invariant Counted()
        invariant recent == was[..SatSub(|was|, i)]
        invariant evictions == old(evictions) + (|was| - |recent|)
        invariant Inherits(handles, old(handles))
      {
        var victim := Oldest();
        if victim.None? {
          break;
        }
        Shed(victim.value);
      }
    }

    /** `evict_by_path`: every handle cached for the path goes, whatever view opened it. */
    method EvictPath(path: Path)
      requires Sound()
      modifies this
      ensures Sound() && !undisturbed && layouts == old(layouts) && nextUid == old(nextUid)
      ensures opens == old(opens) && evictions == old(evictions)
      ensures handles == map k | k in old(handles) && old(handles)[k].path != path :: old(handles)[k]
    {
      undisturbed := false;
      ghost var before := handles;
      assert Counted();
      var rest := set k | k in handles && handles[k].path == path;
      while rest != {}
        invariant Counted() && !undisturbed && layouts == old(layouts) && nextUid == old(nextUid)
        invariant opens == old(opens) && evictions == old(evictions)
        invariant Inherits(handles, before)
        invariant forall k :: k in before ==> (k in handles <==> before[k].path != path || k in rest)
        invariant forall k :: k in rest ==> k in handles
        decreases rest
      {
        var k :| k in rest;
        Sweep(k);
        rest := rest - {k};
      }
    }

    method Sweep(k: Key)
      requires Counted() && k in handles
      modifies this`handles, this`stamps, this`recent, this`swept
      ensures Counted() && handles == old(handles) - {k} && swept == old(swept) + 1
    {
      LiveCount(recent, handles, stamps, stamp);
      StampDropped(recent, stamps, k);
      Evict(k);
      recent := Without(recent, k);
      LiveCount(recent, handles, stamps, stamp);
      assert handles.Keys == old(handles).Keys - {k};
      swept := swept + 1;
    }
  }

  /**
   * While no descriptor ran out and nothing was deleted, the pool caches exactly the keys looked up
   * since whose last use fewer than `cap` other keys were.
   */
  lemma CachedAreMostRecent(pool: Pool, k: Key)
    requires pool.Sound() && pool.undisturbed
    ensures k in pool.handles <==> k in pool.trace && |UsedSince(pool.trace, k)| < pool.cap
  {
    CachedKey(pool.recent, pool.handles, pool.stamps, pool.stamp, k);
    CachedExactlyWhenRecent(pool.trace, pool.cap, k);
  }
}
