/**
 * Per-torrent storage views over the handle pool. Through any mix of reads, writes, evictions,
 * taken views and deletions, a view's file operations act on the bytes now at the file's path.
 */
module PooledStorage {
  import opened Words
  import opened Files
  import opened Recency
  import opened FilePool

  /** Whether a descriptor is free at each of a lookup's two attempts to open. */
  datatype Descriptors = Descriptors(first: bool, second: bool)

  lemma CoherenceGrows(handles: map<Key, Handle>, names: map<Path, Inode>, grown: map<Path, Inode>, layouts: map<nat, Layout>)
    requires Coherent(handles, names, layouts)
    requires forall p :: p in names ==> p in grown && grown[p] == names[p]
    ensures Coherent(handles, grown, layouts)
  {
  }

  lemma CoherenceSwept(handles: map<Key, Handle>, names: map<Path, Inode>, layouts: map<nat, Layout>, path: Path)
    requires Coherent(handles, names, layouts)
    ensures Coherent(map k | k in handles && handles[k].path != path :: handles[k], names - {path}, layouts)
  {
  }

  ghost predicate Grown(names: map<Path, Inode>, data: map<Inode, seq<byte>>, names1: map<Path, Inode>, data1: map<Inode, seq<byte>>) {
    && (forall p :: p in names ==> p in names1 && names1[p] == names[p])
    && (forall p :: p in names && names[p] in data ==> names[p] in data1 && data1[names[p]] == data[names[p]])
    && (forall p :: p in names1 && p !in names ==> names1[p] in data1 && data1[names1[p]] == [])
  }

  /** The paths of the first `k` entries of a file list. */
  ghost predicate Present(fs: FileSystem, folder: Path, files: seq<Option<Path>>, k: nat)
    requires k <= |files|
    reads fs
  {
    forall i :: 0 <= i < k && files[i].Some? ==> Join(folder, files[i].value) in fs.names
  }

  /** None of the first `k` files was among `names`. */
  predicate NoneIn(names: set<Path>, folder: Path, files: seq<Option<Path>>, k: nat)
    requires k <= |files|
  {
    forall i :: 0 <= i < k && files[i].Some? ==> Join(folder, files[i].value) !in names
  }

  /** Every new name is that of a listed file. */
  predicate OnlyListed(names: set<Path>, before: set<Path>, folder: Path, files: seq<Option<Path>>) {
    forall p :: p in names && p !in before ==> exists i :: 0 <= i < |files| && files[i].Some? && p == Join(folder, files[i].value)
  }

  lemma ListedNext(names: set<Path>, before: set<Path>, folder: Path, files: seq<Option<Path>>, k: nat)
    requires k < |files| && files[k].Some? && before <= names && OnlyListed(names, before, folder, files)
    ensures OnlyListed(names + {Join(folder, files[k].value)}, before, folder, files)
    ensures NoneIn(before, folder, files, k) && Join(folder, files[k].value) !in names ==> NoneIn(before, folder, files, k + 1)
  {
  }

  class PooledStorage {
    const pool: Pool
    const uid: nat
    const folder: Path
    const overwrite: bool
    var paths: seq<Option<Path>>

    ghost predicate Valid()
      reads this, pool, pool.fs
    {
      && pool.fs.Valid()
      && pool.Valid()
      && uid in pool.layouts
      && pool.layouts[uid].folder == folder
      && (paths == [] || paths == pool.layouts[uid].files)
    }

    /** The path of a file id; padding entries and unknown ids have none. */
    function FilePath(file: nat): Option<Path>
      reads this
    {
      if file < |paths| && paths[file].Some? then Some(Join(folder, paths[file].value)) else None
    }

    constructor Raw(pool: Pool, uid: nat, folder: Path, overwrite: bool, paths: seq<Option<Path>>)
      ensures this.pool == pool && this.uid == uid && this.folder == folder
      ensures this.overwrite == overwrite && this.paths == paths
    {
      this.pool, this.uid, this.folder, this.overwrite, this.paths := pool, uid, folder, overwrite, paths;
    }

    /** The factory's `create`: a view with a fresh uid and no files yet. */
    static method Create(pool: Pool, folder: Path, overwrite: bool) returns (view: PooledStorage)
      requires pool.Valid() && pool.fs.Valid()
      modifies pool
      ensures view.Valid() && fresh(view) && view.pool == pool && view.folder == folder && view.overwrite == overwrite
      ensures view.uid !in old(pool.layouts) && view.paths == [] && pool.layouts[view.uid].files == []
      ensures forall u :: u in old(pool.layouts) ==> u in pool.layouts && pool.layouts[u] == old(pool.layouts)[u]
    {
      var uid := pool.NextUid(folder);
      view := new PooledStorage.Raw(pool, uid, folder, overwrite, []);
    }

    /** `take`: another view of the same files under the same uid. */
    method Take() returns (view: PooledStorage)
      requires Valid()
      ensures view.Valid() && fresh(view)
      ensures view.pool == pool && view.uid == uid && view.folder == folder && view.overwrite == overwrite && view.paths == paths
    {
      view := new PooledStorage.Raw(pool, uid, folder, overwrite, paths);
    }

    /** Open or create one file, never truncating; without `overwrite` an existing one is refused. */
    method MakeFile(full: Path) returns (ok: bool)
      requires Valid()
      modifies pool.fs
      ensures Valid() && Keeps(old(pool.fs.names), old(pool.fs.data))
      ensures ok == (overwrite || full !in old(pool.fs.names))
      ensures pool.fs.names.Keys == old(pool.fs.names).Keys + {full}
    {
      if full in pool.fs.names {
        assert pool.fs.names.Keys + {full} == pool.fs.names.Keys;
        return overwrite;
      }
      ghost var names := pool.fs.names;
      pool.fs.Create(full);
      CoherenceGrows(pool.handles, names, pool.fs.names, pool.layouts);
      return true;
    }

    /** Every path of an earlier state is still there with its bytes, and the new paths are empty files. */
    ghost predicate Keeps(names: map<Path, Inode>, data: map<Inode, seq<byte>>)
      requires pool.fs.Valid()
      reads pool.fs
    {
      Grown(names, data, pool.fs.names, pool.fs.data)
    }

    lemma KeepsTwice(names: map<Path, Inode>, data: map<Inode, seq<byte>>, names1: map<Path, Inode>, data1: map<Inode, seq<byte>>)
      requires Grown(names, data, names1, data1)
      requires Grown(names1, data1, pool.fs.names, pool.fs.data)
      ensures Grown(names, data, pool.fs.names, pool.fs.data)
    {
    }

    /** `init`: creates the missing files empty; without `overwrite`, an existing file is an error. */
    method Init(files: seq<Option<Path>>) returns (ok: bool)
      requires Valid() && paths == [] && pool.layouts[uid].files == []
      modifies this, pool, pool.fs
      ensures Valid() && Keeps(old(pool.fs.names), old(pool.fs.data))
      ensures ok ==> paths == files && Present(pool.fs, folder, files, |files|)
      ensures !ok ==> !overwrite && paths == []
      ensures ok && !overwrite ==> NoneIn(old(pool.fs.names).Keys, folder, files, |files|)
      ensures OnlyListed(pool.fs.names.Keys, old(pool.fs.names).Keys, folder, files)
      ensures forall u :: u in old(pool.layouts) ==> u in pool.layouts && (u != uid ==> pool.layouts[u] == old(pool.layouts)[u])
    {
      ok := MakeFiles(files);
      if ok {
        pool.Describe(uid, files);
        paths := files;
      }
    }

    method MakeFiles(files: seq<Option<Path>>) returns (ok: bool)
      requires Valid()
      modifies pool.fs
      ensures Valid() && Keeps(old(pool.fs.names), old(pool.fs.data))
      ensures ok ==> Present(pool.fs, folder, files, |files|)
      ensures !ok ==> !overwrite
      ensures ok && !overwrite ==> NoneIn(old(pool.fs.names).Keys, folder, files, |files|)
      ensures OnlyListed(pool.fs.names.Keys, old(pool.fs.names).Keys, folder, files)
    {
      ghost var names, data := pool.fs.names, pool.fs.data;
      var k := 0;
      while k < |files|
        invariant 0 <= k <= |files| && Valid()
        invariant Keeps(names, data)
        invariant Present(pool.fs, folder, files, k)
        invariant !overwrite ==> NoneIn(names.Keys, folder, files, k)
        invariant OnlyListed(pool.fs.names.Keys, names.Keys, folder, files)
      {
        var made := MakeNth(files, k, names, data);
        if !made {
          return false;
        }
        k := k + 1;
      }
      return true;
    }

    /** One entry of the list: a padding entry needs no file. */
    method MakeNth(files: seq<Option<Path>>, k: nat, ghost names: map<Path, Inode>, ghost data: map<Inode, seq<byte>>) returns (ok: bool)
      requires Valid() && k < |files|
      requires Keeps(names, data) && Present(pool.fs, folder, files, k) && OnlyListed(pool.fs.names.Keys, names.Keys, folder, files)
      requires !overwrite ==> NoneIn(names.Keys, folder, files, k)
      modifies pool.fs
      ensures Valid() && Keeps(names, data) && OnlyListed(pool.fs.names.Keys, names.Keys, folder, files)
      ensures ok ==> Present(pool.fs, folder, files, k + 1) && (!overwrite ==> NoneIn(names.Keys, folder, files, k + 1))
      ensures !ok ==> !overwrite
    {
      if files[k].None? {
        return true;
      }
      ghost var names1, data1 := pool.fs.names, pool.fs.data;
      ok := MakeFile(Join(folder, files[k].value));
      KeepsTwice(names, data, names1, data1);
      ListedNext(names1.Keys, names.Keys, folder, files, k);
    }

    /** The inode behind a file id, through the pool. */
    method OpenFile(file: nat, fds: Descriptors) returns (inode: Option<Inode>)
      requires Valid()
      modifies pool
      ensures Valid() && pool.layouts == old(pool.layouts)
      ensures inode.Some? ==> FilePath(file).Some? && FilePath(file).value in pool.fs.names
                              && inode.value == pool.fs.names[FilePath(file).value]
      ensures FilePath(file).Some? && FilePath(file).value in pool.fs.names && (fds.first || fds.second) ==> inode.Some?
    {
      if file >= |paths| || paths[file].None? {
        return None;
      }
      var full := Join(folder, paths[file].value);
      var r := pool.GetOrOpen(Key(uid, file), full, fds.first, fds.second);
      return if r.Opened? then Some(r.inode) else None;
    }

    /** `pread_exact`: what is read is what the path now holds. */
    method PreadExact(file: nat, offset: nat, length: nat, fds: Descriptors) returns (bytes: Option<seq<byte>>)
      requires Valid()
      modifies pool
      ensures Valid() && pool.layouts == old(pool.layouts)
      ensures bytes.Some? ==>
                && FilePath(file).Some? && FilePath(file).value in pool.fs.names
                && offset + length <= |pool.fs.Content(FilePath(file).value)|
                && bytes.value == pool.fs.Content(FilePath(file).value)[offset..offset + length]
      ensures FilePath(file).Some? && FilePath(file).value in pool.fs.names && (fds.first || fds.second) ==>
                (bytes.Some? <==> offset + length <= |pool.fs.Content(FilePath(file).value)|)
    {
      var inode := OpenFile(file, fds);
      if inode.None? {
        return None;
      }
      var data := pool.fs.data[inode.value];
      return if offset + length <= |data| then Some(data[offset..offset + length]) else None;
    }

    /** Replace one path's bytes, through whatever handle the pool has for it. */
    method Rewrite(inode: Inode, path: Path, bytes: seq<byte>)
      requires Valid() && path in pool.fs.names && pool.fs.names[path] == inode
      modifies pool.fs
      ensures Valid() && pool.fs.names == old(pool.fs.names)
      ensures pool.fs.Disk() == old(pool.fs.Disk())[path := bytes]
    {
      StoredDisk(pool.fs.names, pool.fs.data, path, bytes);
      pool.fs.Store(inode, bytes);
    }

    /** `pwrite_all`: afterwards the path holds the spliced bytes, and no other path changed. */
    method PwriteAll(file: nat, offset: nat, buf: seq<byte>, fds: Descriptors) returns (ok: bool)
      requires Valid()
      modifies pool, pool.fs
      ensures Valid() && pool.layouts == old(pool.layouts) && pool.fs.names == old(pool.fs.names)
      ensures ok ==> FilePath(file).Some? && FilePath(file).value in pool.fs.names
      ensures pool.fs.Disk() == if ok then old(pool.fs.Disk())[FilePath(file).value := Spliced(old(pool.fs.Content(FilePath(file).value)), offset, buf)]
                                else old(pool.fs.Disk())
      ensures FilePath(file).Some? && FilePath(file).value in pool.fs.names && (fds.first || fds.second) ==> ok
    {
      var inode := OpenFile(file, fds);
      if inode.None? {
        return false;
      }
      Rewrite(inode.value, Join(folder, paths[file].value), Spliced(pool.fs.data[inode.value], offset, buf));
      return true;
    }

    /** `ensure_file_length`. */
    method EnsureFileLength(file: nat, length: nat, fds: Descriptors) returns (ok: bool)
      requires Valid()
      modifies pool, pool.fs
      ensures Valid() && pool.layouts == old(pool.layouts) && pool.fs.names == old(pool.fs.names)
      ensures ok ==> FilePath(file).Some? && FilePath(file).value in pool.fs.names
      ensures pool.fs.Disk() == if ok then old(pool.fs.Disk())[FilePath(file).value := Resized(old(pool.fs.Content(FilePath(file).value)), length)]
                                else old(pool.fs.Disk())
      ensures FilePath(file).Some? && FilePath(file).value in pool.fs.names && (fds.first || fds.second) ==> ok
    {
      var inode := OpenFile(file, fds);
      if inode.None? {
        return false;
      }
      Rewrite(inode.value, Join(folder, paths[file].value), Resized(pool.fs.data[inode.value], length));
      return true;
    }

    /** `remove_file`: the name goes, and with it every handle any view cached for it. */
    method RemoveFile(relative: Path) returns (ok: bool)
      requires Valid()
      modifies pool, pool.fs
      ensures Valid() && pool.layouts == old(pool.layouts)
      ensures ok == (Join(folder, relative) in old(pool.fs.names))
      ensures pool.fs.names == old(pool.fs.names) - {Join(folder, relative)} && pool.fs.data == old(pool.fs.data)
      ensures pool.fs.Disk() == old(pool.fs.Disk()) - {Join(folder, relative)}
      ensures ok ==> forall k :: k in pool.handles ==> pool.handles[k].path != Join(folder, relative)
      ensures pool.evictions == old(pool.evictions)
    {
      var full := Join(folder, relative);
      UnlinkedDisk(pool.fs.names, pool.fs.data, full);
      if full !in pool.fs.names {
        assert pool.fs.names == pool.fs.names - {full};
        return false;
      }
      ghost var handles, names := pool.handles, pool.fs.names;
      pool.fs.Unlink(full);
      pool.EvictPath(full);
      CoherenceSwept(handles, names, pool.layouts, full);
      return true;
    }
  }

  // ---- any mix of operations through any number of views ----

  datatype Io =
    | Read(file: nat, offset: nat, length: nat)
    | Write(file: nat, offset: nat, buf: seq<byte>)
    | Resize(file: nat, length: nat)
    | Remove(relative: Path)
    | TakeView
    | OpenView(folder: Path, overwrite: bool, files: seq<Option<Path>>)

  /** An operation on the view of this index; a taken view comes last, and so does one opened apart, whatever the index. */
  datatype Call = Call(view: nat, io: Io, fds: Descriptors)

  datatype Outcome = Bytes(bytes: seq<byte>) | Done | Failed

  function Sheet(view: PooledStorage): Layout
    reads view
  {
    Layout(view.folder, view.paths)
  }

  /** The one path an operation names. */
  function Target(layout: Layout, io: Io): Option<Path> {
    match io
    case Read(file, _, _) => PathOf(layout, file)
    case Write(file, _, _) => PathOf(layout, file)
    case Resize(file, _) => PathOf(layout, file)
    case Remove(relative) => Some(Join(layout.folder, relative))
    case TakeView => None
    case OpenView(_, _, _) => None
  }

  /** A write, a resize or a removal of a path that is there, on the bytes it has there and on nothing else. */
  function Changed(d: Disk, layout: Layout, io: Io): Disk
    requires Target(layout, io).Some? ==> Target(layout, io).value in d
  {
    match io
    case Write(file, offset, buf) =>
      if PathOf(layout, file).None? then d
      else d[PathOf(layout, file).value := Spliced(d[PathOf(layout, file).value], offset, buf)]
    case Resize(file, length) =>
      if PathOf(layout, file).None? then d
      else d[PathOf(layout, file).value := Resized(d[PathOf(layout, file).value], length)]
    case Remove(relative) => d - {Join(layout.folder, relative)}
    case _ => d
  }

  /** A new view finds every file of its list or makes it empty, and touches nothing that is there; it may refuse without `overwrite`. */
  ghost predicate ExplainsOpening(d: Disk, folder: Path, overwrite: bool, files: seq<Option<Path>>, o: Outcome, d1: Disk) {
    && !o.Bytes?
    && (o == Failed ==> !overwrite)
    && (forall p :: p in d ==> p in d1 && d1[p] == d[p])
    && (forall p :: p in d1 && p !in d ==> d1[p] == [])
    && OnlyListed(d1.Keys, d.Keys, folder, files)
    && (o == Done ==> forall i :: 0 <= i < |files| && files[i].Some? ==> Join(folder, files[i].value) in d1)
    && (o == Done && !overwrite ==> NoneIn(d.Keys, folder, files, |files|))
  }

  /** An operation behaves as on files never cached: it may fail for want of a descriptor, and then changes nothing. */
  ghost predicate Explains(d: Disk, layout: Layout, io: Io, fds: Descriptors, o: Outcome, d1: Disk) {
    var p := Target(layout, io);
    var there := p.Some? && p.value in d;
    match io
    case TakeView => o == Done && d1 == d
    case OpenView(folder, overwrite, files) => ExplainsOpening(d, folder, overwrite, files, o, d1)
    case Read(_, offset, length) =>
      && d1 == d
      && o != Done
      && (o.Bytes? ==> there && offset + length <= |d[p.value]| && o.bytes == d[p.value][offset..offset + length])
      && (there && (fds.first || fds.second) ==> (o.Bytes? <==> offset + length <= |d[p.value]|))
    case Remove(_) =>
      o == (if there then Done else Failed) && d1 == (if there then Changed(d, layout, io) else d)
    case _ =>
      && !o.Bytes?
      && (o == Done ==> there && d1 == Changed(d, layout, io))
      && (o == Failed ==> d1 == d)
      && (there && (fds.first || fds.second) ==> o == Done)
  }

  function SheetsWith(sheets: seq<Layout>, c: Call, o: Outcome): seq<Layout> {
    if c.io.OpenView? then sheets + [Layout(c.io.folder, if o == Done then c.io.files else [])]
    else if c.io.TakeView? && c.view < |sheets| then sheets + [sheets[c.view]]
    else sheets
  }

  /** The views there are after some calls. */
  function SheetsAfter(sheets: seq<Layout>, calls: seq<Call>, outcomes: seq<Outcome>): seq<Layout>
    requires |outcomes| == |calls|
  {
    if calls == [] then sheets
    else
      var n := |calls| - 1;
      SheetsWith(SheetsAfter(sheets, calls[..n], outcomes[..n]), calls[n], outcomes[n])
  }

  ghost predicate ExplainsCall(d: Disk, sheets: seq<Layout>, c: Call, o: Outcome, d1: Disk) {
    if c.io.OpenView? then ExplainsOpening(d, c.io.folder, c.io.overwrite, c.io.files, o, d1)
    else if c.view >= |sheets| then o == Failed && d1 == d
    else Explains(d, sheets[c.view], c.io, c.fds, o, d1)
  }

  /** `disks` are what the paths held before the first call and after each. */
  ghost predicate Accounts(sheets: seq<Layout>, calls: seq<Call>, outcomes: seq<Outcome>, disks: seq<Disk>) {
    && |outcomes| == |calls|
    && |disks| == |calls| + 1
    && (calls != [] ==>
          var n := |calls| - 1;
          && Accounts(sheets, calls[..n], outcomes[..n], disks[..n + 1])
          && ExplainsCall(disks[n], SheetsAfter(sheets, calls[..n], outcomes[..n]), calls[n], outcomes[n], disks[n + 1]))
  }

  method PerformRead(view: PooledStorage, file: nat, offset: nat, length: nat, fds: Descriptors) returns (o: Outcome)
    requires view.Valid()
    modifies view.pool
    ensures view.Valid() && view.pool.layouts == old(view.pool.layouts)
    ensures Explains(old(view.pool.fs.Disk()), Sheet(view), Read(file, offset, length), fds, o, view.pool.fs.Disk())
  {
    var bytes := view.PreadExact(file, offset, length, fds);
    o := if bytes.Some? then Bytes(bytes.value) else Failed;
  }

  method PerformWrite(view: PooledStorage, file: nat, offset: nat, buf: seq<byte>, fds: Descriptors) returns (o: Outcome)
    requires view.Valid()
    modifies view.pool, view.pool.fs
    ensures view.Valid() && view.pool.layouts == old(view.pool.layouts)
    ensures Explains(old(view.pool.fs.Disk()), Sheet(view), Write(file, offset, buf), fds, o, view.pool.fs.Disk())
  {
    var ok := view.PwriteAll(file, offset, buf, fds);
    o := if ok then Done else Failed;
  }

  method PerformResize(view: PooledStorage, file: nat, length: nat, fds: Descriptors) returns (o: Outcome)
    requires view.Valid()
    modifies view.pool, view.pool.fs
    ensures view.Valid() && view.pool.layouts == old(view.pool.layouts)
    ensures Explains(old(view.pool.fs.Disk()), Sheet(view), Resize(file, length), fds, o, view.pool.fs.Disk())
  {
    var ok := view.EnsureFileLength(file, length, fds);
    o := if ok then Done else Failed;
  }

  method PerformRemove(view: PooledStorage, relative: Path, fds: Descriptors) returns (o: Outcome)
    requires view.Valid()
    modifies view.pool, view.pool.fs
    ensures view.Valid() && view.pool.layouts == old(view.pool.layouts)
    ensures Explains(old(view.pool.fs.Disk()), Sheet(view), Remove(relative), fds, o, view.pool.fs.Disk())
  {
    AbsentKeeps(view.pool.fs.Disk(), Join(view.folder, relative));
    var ok := view.RemoveFile(relative);
    o := if ok then Done else Failed;
  }

  lemma AbsentKeeps(d: Disk, p: Path)
    ensures p !in d ==> d - {p} == d
  {
  }

  /** One operation through one view, on the paths' bytes alone. */
  method Perform(view: PooledStorage, io: Io, fds: Descriptors) returns (o: Outcome)
    requires view.Valid() && !io.TakeView? && !io.OpenView?
    modifies view.pool, view.pool.fs
    ensures view.Valid() && view.pool.layouts == old(view.pool.layouts)
    ensures Explains(old(view.pool.fs.Disk()), Sheet(view), io, fds, o, view.pool.fs.Disk())
  {
    match io
    case Read(file, offset, length) => o := PerformRead(view, file, offset, length, fds);
    case Write(file, offset, buf) => o := PerformWrite(view, file, offset, buf, fds);
    case Resize(file, length) => o := PerformResize(view, file, length, fds);
    case Remove(relative) => o := PerformRemove(view, relative, fds);
  }

  /** A pool, its file system and the views on it, all in order. */
  ghost predicate AllOf(views: seq<PooledStorage>, pool: Pool)
    reads views, pool, pool.fs
  {
    pool.fs.Valid() && pool.Valid() && forall i :: 0 <= i < |views| ==> views[i].pool == pool && views[i].Valid()
  }

  function Sheets(views: seq<PooledStorage>): (r: seq<Layout>)
    reads views
    ensures |r| == |views| && forall i :: 0 <= i < |views| ==> r[i] == Sheet(views[i])
  {
    seq(|views|, i requires 0 <= i < |views| reads views => Sheet(views[i]))
  }

  /** Any list of operations through any views of one pool, whatever the lookups evict along the way. */
  method PerformAll(pool: Pool, views: seq<PooledStorage>, calls: seq<Call>)
    returns (outcomes: seq<Outcome>, after: seq<PooledStorage>, ghost disks: seq<Disk>)
    requires AllOf(views, pool)
    modifies pool, pool.fs
    ensures AllOf(after, pool) && views <= after
    ensures Accounts(old(Sheets(views)), calls, outcomes, disks) && Sheets(after) == SheetsAfter(old(Sheets(views)), calls, outcomes)
    ensures AccountsFrom(old(pool.fs.Disk()), old(Sheets(views)), calls, outcomes, disks, pool.fs.Disk())
    decreases |calls|
  {
    if calls == [] {
      return [], views, [pool.fs.Disk()];
    }
    var n := |calls| - 1;
    ghost var start, sheets := pool.fs.Disk(), Sheets(views);
    outcomes, after, disks := PerformAll(pool, views, calls[..n]);
    var o;
    o, after := PerformLast(pool, after, calls, start, sheets, outcomes, disks);
    outcomes, disks := outcomes + [o], disks + [pool.fs.Disk()];
  }

  method PerformLast(pool: Pool, views: seq<PooledStorage>, calls: seq<Call>, ghost start: Disk, ghost sheets: seq<Layout>,
                     outcomes: seq<Outcome>, ghost disks: seq<Disk>) returns (o: Outcome, after: seq<PooledStorage>)
    requires calls != [] && AllOf(views, pool)
    requires AccountsFrom(start, sheets, calls[..|calls| - 1], outcomes, disks, pool.fs.Disk())
    requires Sheets(views) == SheetsAfter(sheets, calls[..|calls| - 1], outcomes)
    modifies pool, pool.fs
    ensures AllOf(after, pool) && views <= after
    ensures |outcomes| + 1 == |calls| && Sheets(after) == SheetsAfter(sheets, calls, outcomes + [o])
    ensures AccountsFrom(start, sheets, calls, outcomes + [o], disks + [pool.fs.Disk()], pool.fs.Disk())
  {
    var n := |calls| - 1;
    ghost var before, d := Sheets(views), pool.fs.Disk();
    o, after := PerformCall(pool, views, calls[n]);
    assert ExplainsCall(d, before, calls[n], o, pool.fs.Disk());
    AccountsNext(start, sheets, calls, n, outcomes, disks, o, pool.fs.Disk());
    assert calls[..n + 1] == calls;
  }

  /** An account that begins and ends with the given bytes. */
  ghost predicate AccountsFrom(start: Disk, sheets: seq<Layout>, calls: seq<Call>, outcomes: seq<Outcome>, disks: seq<Disk>, end: Disk) {
    Accounts(sheets, calls, outcomes, disks) && disks[0] == start && disks[|calls|] == end
  }

  method PerformCall(pool: Pool, views: seq<PooledStorage>, c: Call) returns (o: Outcome, after: seq<PooledStorage>)
    requires AllOf(views, pool)
    modifies pool, pool.fs
    ensures AllOf(after, pool) && views <= after
    ensures Sheets(after) == SheetsWith(old(Sheets(views)), c, o)
    ensures ExplainsCall(old(pool.fs.Disk()), old(Sheets(views)), c, o, pool.fs.Disk())
  {
    after := views;
    if c.io.OpenView? {
      o, after := PerformOpening(pool, views, c.io.folder, c.io.overwrite, c.io.files);
      return;
    }
    if c.view >= |views| {
      return Failed, views;
    }
    if c.io.TakeView? {
      var taken := views[c.view].Take();
      after := views + [taken];
      assert Sheets(after) == Sheets(views) + [Sheet(taken)];
      return Done, after;
    }
    o := PerformOn(pool, views, c);
  }

  method PerformOpening(pool: Pool, views: seq<PooledStorage>, folder: Path, overwrite: bool, files: seq<Option<Path>>)
    returns (o: Outcome, after: seq<PooledStorage>)
    requires AllOf(views, pool)
    modifies pool, pool.fs
    ensures AllOf(after, pool) && views <= after
    ensures Sheets(after) == old(Sheets(views)) + [Layout(folder, if o == Done then files else [])]
    ensures ExplainsOpening(old(pool.fs.Disk()), folder, overwrite, files, o, pool.fs.Disk())
  {
    ghost var names, data := pool.fs.names, pool.fs.data;
    var view := PooledStorage.Create(pool, folder, overwrite);
    var ok := view.Init(files);
    GrownDisk(names, data, pool.fs.names, pool.fs.data);
    after := views + [view];
    o := if ok then Done else Failed;
    assert Sheets(after) == old(Sheets(views)) + [Sheet(view)];
  }

  lemma GrownDisk(names: map<Path, Inode>, data: map<Inode, seq<byte>>, names1: map<Path, Inode>, data1: map<Inode, seq<byte>>)
    requires Grown(names, data, names1, data1)
    requires (forall p :: p in names ==> names[p] in data) && (forall p :: p in names1 ==> names1[p] in data1)
    ensures var d, d1 := DiskOf(names, data), DiskOf(names1, data1);
            && d.Keys == names.Keys && d1.Keys == names1.Keys
            && (forall p :: p in d ==> p in d1 && d1[p] == d[p])
            && (forall p :: p in d1 && p !in d ==> d1[p] == [])
  {
  }

  method PerformOn(pool: Pool, views: seq<PooledStorage>, c: Call) returns (o: Outcome)
    requires AllOf(views, pool) && c.view < |views| && !c.io.TakeView? && !c.io.OpenView?
    modifies pool, pool.fs
    ensures AllOf(views, pool) && Sheets(views) == old(Sheets(views))
    ensures Explains(old(pool.fs.Disk()), Sheets(views)[c.view], c.io, c.fds, o, pool.fs.Disk())
  {
    o := Perform(views[c.view], c.io, c.fds);
  }

  lemma AccountsNext(start: Disk, sheets: seq<Layout>, calls: seq<Call>, k: nat, outcomes: seq<Outcome>, disks: seq<Disk>, o: Outcome, d: Disk)
    requires k < |calls| && Accounts(sheets, calls[..k], outcomes, disks) && disks[0] == start
    requires ExplainsCall(disks[k], SheetsAfter(sheets, calls[..k], outcomes), calls[k], o, d)
    ensures AccountsFrom(start, sheets, calls[..k + 1], outcomes + [o], disks + [d], d)
    ensures SheetsAfter(sheets, calls[..k + 1], outcomes + [o]) == SheetsWith(SheetsAfter(sheets, calls[..k], outcomes), calls[k], o)
  {
    assert calls[..k + 1][..k] == calls[..k];
    assert (outcomes + [o])[..k] == outcomes;
    assert (disks + [d])[..k + 1] == disks;
  }

  // ---- what such a list guarantees ----

  /** The path the `k`-th call names, by the views there are then. */
  function TargetOf(sheets: seq<Layout>, calls: seq<Call>, outcomes: seq<Outcome>, k: nat): Option<Path>
    requires k < |calls| == |outcomes|
  {
    var now := SheetsAfter(sheets, calls[..k], outcomes[..k]);
    if calls[k].view < |now| then Target(now[calls[k].view], calls[k].io) else None
  }

  lemma {:induction false} AccountsAt(sheets: seq<Layout>, calls: seq<Call>, outcomes: seq<Outcome>, disks: seq<Disk>, k: nat)
    requires Accounts(sheets, calls, outcomes, disks) && k < |calls|
    ensures ExplainsCall(disks[k], SheetsAfter(sheets, calls[..k], outcomes[..k]), calls[k], outcomes[k], disks[k + 1])
  {
    var n := |calls| - 1;
    if k < n {
      AccountsAt(sheets, calls[..n], outcomes[..n], disks[..n + 1], k);
      assert calls[..n][..k] == calls[..k] && outcomes[..n][..k] == outcomes[..k];
    }
  }

  /** A path keeps its bytes through calls none of which writes, resizes or removes it. */
  lemma {:induction false} PathKeeps(sheets: seq<Layout>, calls: seq<Call>, outcomes: seq<Outcome>, disks: seq<Disk>, p: Path, i: nat, j: nat)
    requires Accounts(sheets, calls, outcomes, disks) && i <= j <= |calls| && p in disks[i]
    requires forall k :: i <= k < j ==> calls[k].io.Read? || TargetOf(sheets, calls, outcomes, k) != Some(p)
    ensures p in disks[j] && disks[j][p] == disks[i][p]
    decreases j - i
  {
    if i < j {
      PathKeeps(sheets, calls, outcomes, disks, p, i, j - 1);
      AccountsAt(sheets, calls, outcomes, disks, j - 1);
      OthersKeep(disks[j - 1], SheetsAfter(sheets, calls[..j - 1], outcomes[..j - 1]), calls[j - 1], outcomes[j - 1], disks[j], p);
    }
  }

  lemma OthersKeep(d: Disk, sheets: seq<Layout>, c: Call, o: Outcome, d1: Disk, p: Path)
    requires ExplainsCall(d, sheets, c, o, d1) && p in d
    requires c.io.Read? || c.io.OpenView? || !(c.view < |sheets|) || Target(sheets[c.view], c.io) != Some(p)
    ensures p in d1 && d1[p] == d[p]
  {
  }

  /**
   * Bytes written through one view are read back through any view that names the same path, taken from it or
   * opened apart, whatever lies between: reads, evictions, shedding, new views, and writes and removals of other paths.
   */
  lemma WrittenBytesReadBack(sheets: seq<Layout>, calls: seq<Call>, outcomes: seq<Outcome>, disks: seq<Disk>, p: Path, i: nat, j: nat)
    requires Accounts(sheets, calls, outcomes, disks) && i < j < |calls|
    requires calls[i].io.Write? && calls[i].io.buf != [] && TargetOf(sheets, calls, outcomes, i) == Some(p) && outcomes[i] == Done
    requires forall k :: i < k < j ==> calls[k].io.Read? || TargetOf(sheets, calls, outcomes, k) != Some(p)
    requires TargetOf(sheets, calls, outcomes, j) == Some(p) && calls[j].io.Read?
             && calls[j].io.offset == calls[i].io.offset && calls[j].io.length == |calls[i].io.buf|
    ensures outcomes[j] == Bytes(calls[i].io.buf) || (outcomes[j] == Failed && !calls[j].fds.first && !calls[j].fds.second)
  {
    AccountsAt(sheets, calls, outcomes, disks, i);
    SpliceReads(disks[i][p], calls[i].io.offset, calls[i].io.buf);
    PathKeeps(sheets, calls, outcomes, disks, p, i + 1, j);
    AccountsAt(sheets, calls, outcomes, disks, j);
  }

  lemma SpliceReads(data: seq<byte>, offset: nat, buf: seq<byte>)
    requires buf != []
    ensures var s := Spliced(data, offset, buf); offset + |buf| <= |s| && s[offset..offset + |buf|] == buf
  {
  }

  // ---- byte by byte ----

  /** A write that succeeded changed its path's bytes in its own range only, and no other path's. */
  lemma DoneWriteBytes(sheets: seq<Layout>, calls: seq<Call>, outcomes: seq<Outcome>, disks: seq<Disk>, i: nat, p: Path)
    requires Accounts(sheets, calls, outcomes, disks) && i < |calls|
    requires calls[i].io.Write? && calls[i].io.buf != [] && TargetOf(sheets, calls, outcomes, i) == Some(p) && outcomes[i] == Done
    ensures var offset, buf := calls[i].io.offset, calls[i].io.buf;
            && p in disks[i] && disks[i + 1].Keys == disks[i].Keys
            && (forall q :: q in disks[i] && q != p ==> disks[i + 1][q] == disks[i][q])
            && var data, after := disks[i][p], disks[i + 1][p];
               && |after| == Max(|data|, offset + |buf|)
               && (forall x :: offset <= x < offset + |buf| ==> after[x] == buf[x - offset])
               && (forall x :: 0 <= x < |data| && !(offset <= x < offset + |buf|) ==> after[x] == data[x])
               && (forall x :: |data| <= x < offset ==> after[x] == 0)
  {
    AccountsAt(sheets, calls, outcomes, disks, i);
    SplicedBytes(disks[i][p], calls[i].io.offset, calls[i].io.buf);
  }

  /** A resize that succeeded cut its path or filled it with zeros, and changed no other. */
  lemma DoneResizeBytes(sheets: seq<Layout>, calls: seq<Call>, outcomes: seq<Outcome>, disks: seq<Disk>, i: nat, p: Path)
    requires Accounts(sheets, calls, outcomes, disks) && i < |calls|
    requires calls[i].io.Resize? && TargetOf(sheets, calls, outcomes, i) == Some(p) && outcomes[i] == Done
    ensures var length := calls[i].io.length;
            && p in disks[i] && disks[i + 1].Keys == disks[i].Keys
            && (forall q :: q in disks[i] && q != p ==> disks[i + 1][q] == disks[i][q])
            && var data, after := disks[i][p], disks[i + 1][p];
               && |after| == length
               && (forall x :: 0 <= x < Min(|data|, length) ==> after[x] == data[x])
               && (forall x :: |data| <= x < length ==> after[x] == 0)
  {
    AccountsAt(sheets, calls, outcomes, disks, i);
    ResizedBytes(disks[i][p], calls[i].io.length);
  }

  /** The `k`-th call leaves byte `x` of `p` alone: no write over it, no cut before it, no removal. */
  predicate Spares(sheets: seq<Layout>, calls: seq<Call>, outcomes: seq<Outcome>, k: nat, p: Path, x: nat)
    requires k < |calls| == |outcomes|
  {
    TargetOf(sheets, calls, outcomes, k) == Some(p) ==>
      match calls[k].io
      case Write(_, offset, buf) => outcomes[k] == Done ==> !(offset <= x < offset + |buf|)
      case Resize(_, length) => outcomes[k] == Done ==> x < length
      case Remove(_) => false
      case _ => true
  }

  /** A byte stays what it is through any calls that spare it, later writes to its own file included. */
  lemma {:induction false} ByteKeeps(sheets: seq<Layout>, calls: seq<Call>, outcomes: seq<Outcome>, disks: seq<Disk>, p: Path, x: nat, i: nat, j: nat)
    requires Accounts(sheets, calls, outcomes, disks) && i <= j <= |calls| && p in disks[i] && x < |disks[i][p]|
    requires forall k :: i <= k < j ==> Spares(sheets, calls, outcomes, k, p, x)
    ensures p in disks[j] && x < |disks[j][p]| && disks[j][p][x] == disks[i][p][x]
    decreases j - i
  {
    if i < j {
      var k := j - 1;
      ByteKeeps(sheets, calls, outcomes, disks, p, x, i, k);
      assert Spares(sheets, calls, outcomes, k, p, x);
      if TargetOf(sheets, calls, outcomes, k) != Some(p) || calls[k].io.Read? {
        PathKeeps(sheets, calls, outcomes, disks, p, k, j);
      } else if outcomes[k] == Done {
        if calls[k].io.Write? && calls[k].io.buf == [] {
          AccountsAt(sheets, calls, outcomes, disks, k);
        } else if calls[k].io.Write? {
          DoneWriteBytes(sheets, calls, outcomes, disks, k, p);
        } else {
          DoneResizeBytes(sheets, calls, outcomes, disks, k, p);
        }
      } else {
        AccountsAt(sheets, calls, outcomes, disks, k);
      }
    }
  }

  /**
   * A byte reads back as it was last written, through any view and whatever came between that spared it: later
   * writes elsewhere in the same file, resizes beyond it, anything at all on other paths.
   */
  lemma WrittenByteReadsBack(sheets: seq<Layout>, calls: seq<Call>, outcomes: seq<Outcome>, disks: seq<Disk>, p: Path, x: nat, i: nat, j: nat)
    requires Accounts(sheets, calls, outcomes, disks) && i < j < |calls|
    requires calls[i].io.Write? && TargetOf(sheets, calls, outcomes, i) == Some(p) && outcomes[i] == Done
    requires calls[i].io.offset <= x < calls[i].io.offset + |calls[i].io.buf|
    requires forall k :: i < k < j ==> Spares(sheets, calls, outcomes, k, p, x)
    requires calls[j].io.Read? && TargetOf(sheets, calls, outcomes, j) == Some(p) && outcomes[j].Bytes?
    requires calls[j].io.offset <= x < calls[j].io.offset + calls[j].io.length
    ensures |outcomes[j].bytes| == calls[j].io.length
    ensures outcomes[j].bytes[x - calls[j].io.offset] == calls[i].io.buf[x - calls[i].io.offset]
  {
    DoneWriteBytes(sheets, calls, outcomes, disks, i, p);
    ByteKeeps(sheets, calls, outcomes, disks, p, x, i + 1, j);
    AccountsAt(sheets, calls, outcomes, disks, j);
  }
}
