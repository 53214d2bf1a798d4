/** An open FAT32 file: reads walk the chain cluster by cluster, seeks move the offset. */
module Fat32File {
  import opened Bits
  import opened PhysMemory
  import opened Fat32Spec

  datatype Status = Ok | Err | IsDir
  datatype Whence = SeekSet | SeekCur | SeekEnd
  datatype Moved = Refused | To(offset: nat)

  function Min(a: nat, b: nat): nat { if a < b then a else b }

  /** Stepping k bytes on within a cluster. */
  lemma SameCluster(o: nat, k: nat, cb: nat)
    requires cb > 0 && o % cb + k < cb
    ensures (o + k) / cb == o / cb && (o + k) % cb == o % cb + k
  {
    DivUnique(o + k, cb, o / cb, o % cb + k);
  }

  /** Stepping on to the next cluster. */
  lemma NextCluster(o: nat, cb: nat)
    requires cb > 0
    ensures (o + (cb - o % cb)) / cb == o / cb + 1 && (o + (cb - o % cb)) % cb == 0
  {
    DivUnique(o + (cb - o % cb), cb, o / cb + 1, 0);
  }

  /** bs are the bytes from offset `off` on. */
  ghost predicate Served(v: Volume, start: nat, off: nat, bs: seq<Byte>)
    requires Sound(v)
  {
    forall j: nat :: j < |bs| ==> ServedAt(v, start, off + j, bs[j])
  }

  predicate ServedAt(v: Volume, start: nat, o: nat, b: Byte)
    requires Sound(v)
  {
    Reached(v, start, o) && b == ByteAt(v, start, o)
  }

  predicate Look(k: nat) { true }

  /** Offset o lies at byte r of c; stated behind a trigger to keep the divisions out of the loops. */
  ghost predicate Here(v: Volume, start: nat, o: nat, r: nat, c: Cluster) {
    forall k: nat {:trigger Look(k)} :: Look(k) ==> v.cb > 0 && r == o % v.cb && c == ClusterAt(v, start, o / v.cb)
  }

  lemma HereFacts(v: Volume, start: nat, o: nat, r: nat, c: nat)
    requires Sound(v) && Here(v, start, o, r, At(c))
    ensures r < v.cb && v.valid(c) && |v.data(c)| == v.cb
  {
    assert Look(0);
  }

  lemma HereNext(v: Volume, start: nat, o: nat, r: nat, c: nat)
    requires Here(v, start, o, r, At(c)) && r < v.cb
    ensures Here(v, start, o + (v.cb - r), 0, After(v, c))
  {
    assert Look(0);
    NextCluster(o, v.cb);
  }

  lemma HereEnds(v: Volume, start: nat, o: nat, r: nat)
    requires v.cb > 0 && Here(v, start, o, r, End)
    ensures !Reached(v, start, o)
  {
    assert Look(0);
  }

  lemma ChunkServed(v: Volume, start: nat, off: nat, bs: seq<Byte>, r: nat, c: nat, chunk: nat)
    requires Sound(v) && Served(v, start, off, bs) && Here(v, start, off + |bs|, r, At(c))
    requires r + chunk <= v.cb == |v.data(c)|
    ensures Served(v, start, off, bs + v.data(c)[r..r + chunk])
  {
    assert Look(0);
    var more := bs + v.data(c)[r..r + chunk];
    forall j: nat | j < |more|
      ensures ServedAt(v, start, off + j, more[j])
    {
      if j < |bs| {
        assert ServedAt(v, start, off + j, bs[j]);
      } else {
        SameCluster(off + |bs|, j - |bs|, v.cb);
      }
    }
  }

  class OpenFile {
    const fs: Fs
    const start: nat
    const size: nat
    const isDir: bool
    var offset: nat

    ghost function Vol(): Volume { VolumeOf(fs) }

    ghost predicate Valid()
      reads this
    {
      Mounted(fs) && Sound(Vol()) && size < U32 && offset <= size
    }

    constructor (img: seq<Byte>, first: nat, length: nat, dir: bool)
      requires ParseHeader(img).AsFat32? && length < U32
      ensures Valid() && fs == ParseHeader(img).fs && start == first && size == length && isDir == dir && offset == 0
    {
      ParsedIsMounted(img);
      MountedIsSound(ParseHeader(img).fs);
      fs, start, size, isDir, offset := ParseHeader(img).fs, first, length, dir, 0;
    }

    /** One step along the chain. */
    method Advance(c: nat, ghost v: Volume) returns (n: Cluster)
      requires v == Vol()
      ensures n == After(v, c)
    {
      var next := Next(fs, c);
      n := if next >= EOC || !IsValid(fs, next) then End else At(next);
    }

    method First(ghost v: Volume) returns (c: Cluster)
      requires v == Vol()
      ensures c == ClusterAt(v, start, 0)
    {
      c := if IsValid(fs, start) then At(start) else End;
    }

    /** The skip loop of fat32_read: the k-th cluster of the chain. */
    method SkipTo(k: nat, ghost v: Volume) returns (c: Cluster)
      requires v == Vol()
      ensures c == ClusterAt(v, start, k)
    {
      c := First(v);
      var skip := k;
      while skip > 0 && c.At?
        invariant 0 <= skip <= k && c == ClusterAt(v, start, k - skip)
      {
        c := Advance(c.number, v);
        skip := skip - 1;
      }
      if c.End? {
        EndStays(v, start, k - skip, k);
      }
    }

    /** memcpy out of one cluster. */
    method CopyCluster(buf: array<Byte>, at: nat, c: nat, r: nat, chunk: nat, ghost v: Volume)
      requires v == Vol() && v.valid(c) && |v.data(c)| == v.cb && v.cb > 0 && r + chunk <= v.cb
      requires at + chunk <= buf.Length
      modifies buf
      ensures buf[..at + chunk] == old(buf[..at]) + v.data(c)[r..r + chunk]
      ensures buf[at + chunk..] == old(buf[at + chunk..])
    {
      var coff := Offset(fs, c);
      assert v.data(c) == ClusterData(fs, c);
      for k := 0 to chunk
        invariant buf[..at + k] == old(buf[..at]) + v.data(c)[r..r + k]
        invariant buf[at + chunk..] == old(buf[at + chunk..])
      {
        assert fs.image[coff + r + k] == v.data(c)[r + k];
        buf[at + k] := fs.image[coff + r + k];
      }
    }

    /** The copy loop of fat32_read, from the cluster that holds offset `off`. */
    method CopyChain(buf: array<Byte>, off: nat, need: nat, first: nat, cb: nat, ghost v: Volume) returns (done: nat)
      requires v == Vol() && Sound(v) && cb == v.cb && need <= buf.Length && ClusterAt(v, start, off / cb) == At(first)
      modifies buf
      ensures done <= need && Served(v, start, off, buf[..done]) && buf[need..] == old(buf[need..])
      ensures done == need || !Reached(v, start, off + done)
    {
      var c := At(first);
      var r: nat := off % cb;
      done := 0;
      while done < need && c.At?
        invariant done <= need && Served(v, start, off, buf[..done]) && buf[need..] == old(buf[need..])
        invariant done < need ==> Here(v, start, off + done, r, c)
        decreases need - done, c.At?
      {
        done, r, c := CopyPart(buf, off, done, need, c.number, r, cb, v);
      }
      if done < need {
        HereEnds(v, start, off + done, r);
      }
    }

    /** One round: the part of the read that lies in cluster c, and the step to the next cluster. */
    method CopyPart(buf: array<Byte>, ghost off: nat, at: nat, need: nat, c: nat, r: nat, cb: nat, ghost v: Volume)
      returns (done: nat, r': nat, c': Cluster)
      requires v == Vol() && Sound(v) && cb == v.cb && at < need <= buf.Length && Served(v, start, off, buf[..at])
      requires Here(v, start, off + at, r, At(c))
      modifies buf
      ensures at < done <= need && Served(v, start, off, buf[..done]) && buf[need..] == old(buf[need..])
      ensures done < need ==> Here(v, start, off + done, r', c')
    {
      HereFacts(v, start, off + at, r, c);
      var chunk := Min(cb - r, need - at);
      CopyServed(buf, off, at, need, c, r, chunk, v);
      done, r', c' := at + chunk, 0, At(c);
      if done < need {
        c' := Advance(c, v);
        HereNext(v, start, off + at, r, c);
      }
    }

    method CopyServed(buf: array<Byte>, ghost off: nat, at: nat, ghost need: nat, c: nat, r: nat, chunk: nat,
                      ghost v: Volume)
      requires v == Vol() && Sound(v) && v.valid(c) && r + chunk <= v.cb == |v.data(c)|
      requires at + chunk <= need <= buf.Length
      requires Served(v, start, off, buf[..at]) && Here(v, start, off + at, r, At(c))
      modifies buf
      ensures Served(v, start, off, buf[..at + chunk]) && buf[need..] == old(buf[need..])
    {
      ghost var bs := buf[..at];
      ChunkServed(v, start, off, bs, r, c, chunk);
      CopyCluster(buf, at, c, r, chunk, v);
      assert buf[need..] == buf[at + chunk..][need - (at + chunk)..];
    }

    /** fat32_read. */
    method Read(buf: array<Byte>, n: nat) returns (status: Status, got: nat)
      requires Valid() && n <= buf.Length
      modifies this`offset, buf
      ensures Valid() && buf[n..] == old(buf[n..])
      ensures status.IsDir? <==> isDir
      ensures status.Err? <==> !isDir && old(offset) < size && !Reached(Vol(), start, old(offset))
      ensures status.Ok? ==> offset == old(offset) + got && got <= n && Served(Vol(), start, old(offset), buf[..got])
      ensures status.Ok? ==> got == Min(n, size - old(offset)) || !Reached(Vol(), start, offset)
      ensures !status.Ok? ==> offset == old(offset) && got == 0
    {
      got := 0;
      if isDir {
        return IsDir, 0;
      }
      if offset >= size {
        return Ok, 0;
      }
      ghost var v := Vol();
      var need, cb := Min(n, size - offset), ClusterBytes(fs);
      var c := SkipTo(offset / cb, v);
      if c.End? {
        return Err, 0;
      }
      got := CopyChain(buf, offset, need, c.number, cb, v);
      offset := offset + got;
      return Ok, got;
    }

    /** fat32_seek: to any position from the start to the end of the file, and nowhere else. */
    method Seek(delta: int, whence: Whence) returns (r: Moved)
      requires Valid()
      modifies this`offset
      ensures Valid()
      ensures var to := delta + (match whence case SeekSet => 0 case SeekCur => old(offset) case SeekEnd => size);
        if 0 <= to <= size then r == To(to) && offset == to else r == Refused && offset == old(offset)
    {
      var base := match whence case SeekSet => 0 case SeekCur => offset case SeekEnd => size;
      var to := base + delta;
      if to < 0 || to > size {
        return Refused;
      }
      offset := to;
      return To(to);
    }
  }

  lemma AllReached(v: Volume, start: nat, size: nat, o: nat)
    requires Sound(v) && Covers(v, start, size)
    ensures o < size ==> Reached(v, start, o)
  {
  }

  lemma CoveredIsSlice(v: Volume, start: nat, size: nat, off: nat, need: nat, bs: seq<Byte>)
    requires Sound(v) && Covers(v, start, size) && |bs| <= need && off + need <= size && Served(v, start, off, bs)
    requires |bs| == need || !Reached(v, start, off + |bs|)
    ensures |bs| == need && bs == Contents(v, start, size)[off..off + |bs|]
  {
    AllReached(v, start, size, off + |bs|);
    ServedIsSlice(v, start, size, off, bs);
  }

  // ---- Sessions ---------------------------------------------------------------------------------------

  datatype FileOp = DoRead(n: nat) | DoSeek(delta: int, whence: Whence)

  function SeekTarget(offset: nat, size: nat, delta: int, whence: Whence): nat {
    var to := delta + (match whence case SeekSet => 0 case SeekCur => offset case SeekEnd => size);
    if 0 <= to <= size then to else offset
  }

  /** Reads and seeks on a plain byte sequence: what each operation returns. */
  function Play(bytes: seq<Byte>, offset: nat, ops: seq<FileOp>): seq<seq<Byte>>
    requires offset <= |bytes|
    decreases ops
  {
    if ops == [] then []
    else
      match ops[0]
      case DoRead(n) =>
        var k := Min(n, |bytes| - offset);
        [bytes[offset..offset + k]] + Play(bytes, offset + k, ops[1..])
      case DoSeek(delta, whence) => [[]] + Play(bytes, SeekTarget(offset, |bytes|, delta, whence), ops[1..])
  }

  lemma Regrouped(outs: seq<seq<Byte>>, out: seq<Byte>, rest: seq<seq<Byte>>)
    ensures outs + ([out] + rest) == outs + [out] + rest
  {
  }

  /** Any sequence of reads and seeks on a file whose chain covers its size behaves as on one byte
      sequence, the clusters along the chain cut to size. */
  method Session(f: OpenFile, ops: seq<FileOp>) returns (outs: seq<seq<Byte>>)
    requires f.Valid() && !f.isDir && Covers(f.Vol(), f.start, f.size)
    modifies f`offset
    ensures outs == Play(Contents(f.Vol(), f.start, f.size), old(f.offset), ops)
  {
    ghost var bytes := Contents(f.Vol(), f.start, f.size);
    outs := [];
    for i := 0 to |ops|
      invariant f.Valid() && outs + Play(bytes, f.offset, ops[i..]) == Play(bytes, old(f.offset), ops)
    {
      ghost var off := f.offset;
      assert ops[i..][0] == ops[i] && ops[i..][1..] == ops[i + 1..];
      var out := Perform(f, ops[i], bytes);
      ghost var rest := Play(bytes, f.offset, ops[i + 1..]);
      assert Play(bytes, off, ops[i..]) == [out] + rest;
      Regrouped(outs, out, rest);
      outs := outs + [out];
    }
    assert ops[|ops|..] == [];
    assert outs + [] == outs;
  }

  method Perform(f: OpenFile, op: FileOp, ghost bytes: seq<Byte>) returns (out: seq<Byte>)
    requires f.Valid() && !f.isDir && Covers(f.Vol(), f.start, f.size) && bytes == Contents(f.Vol(), f.start, f.size)
    modifies f`offset
    ensures f.Valid() && |bytes| == f.size
    ensures op.DoSeek? ==> out == [] && f.offset == SeekTarget(old(f.offset), f.size, op.delta, op.whence)
    ensures op.DoRead? ==>
      var k := Min(op.n, f.size - old(f.offset)); f.offset == old(f.offset) + k && out == bytes[old(f.offset)..f.offset]
  {
    out := [];
    match op
    case DoSeek(delta, whence) =>
      var r := f.Seek(delta, whence);
    case DoRead(n) =>
      var buf := new Byte[n](_ => 0);
      ghost var off := f.offset;
      AllReached(f.Vol(), f.start, f.size, off);
      var status, got := f.Read(buf, n);
      CoveredIsSlice(f.Vol(), f.start, f.size, off, Min(n, f.size - off), buf[..got]);
      out := buf[..got];
  }

  /** On a file whose chain covers its size, what is served is a slice of the file's contents. */
  lemma ServedIsSlice(v: Volume, start: nat, size: nat, off: nat, bs: seq<Byte>)
    requires Sound(v) && Covers(v, start, size) && off + |bs| <= size && Served(v, start, off, bs)
    ensures bs == Contents(v, start, size)[off..off + |bs|]
  {
    forall j | 0 <= j < |bs|
      ensures bs[j] == Contents(v, start, size)[off..off + |bs|][j]
    {
      assert ServedAt(v, start, off + j, bs[j]);
    }
  }
}
