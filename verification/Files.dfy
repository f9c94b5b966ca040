/** A small file system: names, inodes and bytes. */
module Files {
  import opened Words

  type Path = string
  type Inode = nat

  datatype OpenResult = Opened(inode: Inode) | NotFound | TooManyFiles

  /** `data` with `buf` written at `offset`, a gap being filled with zeros. */
  function Spliced(data: seq<byte>, offset: nat, buf: seq<byte>): seq<byte> {
    if buf == [] then data
    else
      var padded := if offset <= |data| then data[..offset] else data + seq(offset - |data|, _ => 0);
      padded + buf + (if offset + |buf| <= |data| then data[offset + |buf|..] else [])
  }

  function Resized(data: seq<byte>, length: nat): seq<byte> {
    if length <= |data| then data[..length] else data + seq(length - |data|, _ => 0)
  }

  /** A write reaches its own range and no byte outside it; a gap before it is zeros. */
  lemma SplicedBytes(data: seq<byte>, offset: nat, buf: seq<byte>)
    requires buf != []
    ensures var s := Spliced(data, offset, buf);
            && |s| == Max(|data|, offset + |buf|)
            && (forall x :: offset <= x < offset + |buf| ==> s[x] == buf[x - offset])
            && (forall x :: 0 <= x < |data| && !(offset <= x < offset + |buf|) ==> s[x] == data[x])
            && (forall x :: |data| <= x < offset ==> s[x] == 0)
  {
  }

  /** Cut or filled with zeros to the length, the bytes before it kept. */
  lemma ResizedBytes(data: seq<byte>, length: nat)
    ensures var s := Resized(data, length);
            && |s| == length
            && (forall x :: 0 <= x < Min(|data|, length) ==> s[x] == data[x])
            && (forall x :: |data| <= x < length ==> s[x] == 0)
  {
  }

  /** What the paths hold. */
  type Disk = map<Path, seq<byte>>

  function DiskOf(names: map<Path, Inode>, data: map<Inode, seq<byte>>): Disk {
    map p | p in names && names[p] in data :: data[names[p]]
  }

  lemma StoredDisk(names: map<Path, Inode>, data: map<Inode, seq<byte>>, p: Path, bytes: seq<byte>)
    requires p in names && names[p] in data
    requires forall q :: q in names && names[q] == names[p] ==> q == p
    ensures DiskOf(names, data[names[p] := bytes]) == DiskOf(names, data)[p := bytes]
  {
  }

  lemma UnlinkedDisk(names: map<Path, Inode>, data: map<Inode, seq<byte>>, p: Path)
    ensures DiskOf(names - {p}, data) == DiskOf(names, data) - {p}
  {
  }

  class FileSystem {
    var names: map<Path, Inode>
    var data: map<Inode, seq<byte>>
    var nextInode: Inode

    ghost predicate Valid()
      reads this
    {
      && (forall p :: p in names ==> names[p] in data)
      && (forall i :: i in data ==> i < nextInode)
      && (forall p, q :: p in names && q in names && names[p] == names[q] ==> p == q)
    }

    /** What a reader of the path finds. */
    function Content(path: Path): seq<byte>
      requires Valid() && path in names
      reads this
    {
      data[names[path]]
    }

    function Disk(): Disk
      reads this
    {
      DiskOf(names, data)
    }

    /** `open_rw`. The descriptor is reserved before the name is looked up. */
    function Open(path: Path, descriptorFree: bool): OpenResult
      reads this
    {
      if !descriptorFree then TooManyFiles
      else if path in names then Opened(names[path])
      else NotFound
    }

    method Create(path: Path)
      requires Valid() && path !in names
      modifies this
      ensures Valid() && names.Keys == old(names).Keys + {path} && Content(path) == []
      ensures forall p :: p in old(names) ==> names[p] == old(names)[p] && Content(p) == old(Content(p))
    {
      data := data[nextInode := []];
      names := names[path := nextInode];
      nextInode := nextInode + 1;
    }

    method Store(inode: Inode, bytes: seq<byte>)
      requires Valid() && inode in data
      modifies this
      ensures Valid() && names == old(names) && data == old(data)[inode := bytes]
    {
      data := data[inode := bytes];
    }

    method Unlink(path: Path)
      requires Valid()
      modifies this
      ensures Valid() && names == old(names) - {path} && data == old(data)
    {
      names := names - {path};
    }
  }
}
