/** FAT32 volumes: the header check, where clusters lie, chains through the table, and the byte
    sequence a file denotes. */
module Fat32Spec {
  import opened Bits
  import opened PhysMemory

  const U32: nat := 0x1_0000_0000
  const EOC: nat := 0x0FFF_FFF8

  datatype Fs = Fs(image: seq<Byte>, bps: nat, spc: nat, reserved: nat, fats: nat, fatSize: nat,
                   total: nat, rootCluster: nat, dataStart: nat, clusterCount: nat)
  datatype Parsed = NotFat32 | AsFat32(fs: Fs)
  datatype Cluster = End | At(number: nat)

  function Rd16(img: seq<Byte>, o: nat): (v: nat)
    requires o + 2 <= |img|
    ensures v < 0x1_0000
  {
    var a: nat, b: nat := img[o], img[o + 1];
    a + 0x100 * b
  }

  function Rd32(img: seq<Byte>, o: nat): (v: nat)
    requires o + 4 <= |img|
    ensures v < U32
  {
    var a: nat, b: nat, c: nat, d: nat := img[o], img[o + 1], img[o + 2], img[o + 3];
    a + 0x100 * b + 0x1_0000 * c + 0x100_0000 * d
  }

  datatype Geometry = Bad | Geometry(total: nat, dataStart: nat, clusters: nat)

  /** The sector arithmetic of fat32_parse_header.  Sums and products are 32-bit. */
  function Measure(size: nat, bps: nat, spc: nat, reserved: nat, fats: nat, fatSize: nat, volume: nat): Geometry {
    if bps == 0 || spc == 0 || reserved == 0 || fats == 0 || fatSize == 0 || volume == 0 then Bad
    else
      var imageSectors := (size / bps) % U32;
      var dataStart := (reserved + fats * fatSize) % U32;
      var total := if volume > imageSectors then imageSectors else volume;
      if imageSectors < (reserved + fats * fatSize + spc) % U32 || dataStart >= total then Bad
      else if (total - dataStart) / spc < 2 then Bad
      else Geometry(total, dataStart, (total - dataStart) / spc)
  }

  /** fat32_parse_header up to the decision for FAT32. */
  function ParseHeader(img: seq<Byte>): Parsed {
    if |img| < 512 || img[510] != 0x55 || img[511] != 0xAA then NotFat32
    else
      var bps, spc, reserved, fats := Rd16(img, 11), img[13], Rd16(img, 14), img[16];
      var volume := if Rd16(img, 19) == 0 then Rd32(img, 32) else Rd16(img, 19);
      var fatSize := if Rd16(img, 22) == 0 then Rd32(img, 36) else Rd16(img, 22);
      match Measure(|img|, bps, spc, reserved, fats, fatSize, volume)
      case Bad => NotFat32
      case Geometry(total, dataStart, clusters) =>
        if Rd16(img, 22) != 0 || Rd32(img, 44) < 2 then NotFat32
        else AsFat32(Fs(img, bps, spc, reserved, fats, fatSize, total, Rd32(img, 44), dataStart, clusters))
  }

  /** What an accepted header guarantees. */
  predicate Mounted(fs: Fs) {
    && 0 < fs.bps < 0x1_0000 && 0 < fs.spc < 0x100 && fs.dataStart < fs.total < U32
    && fs.total <= |fs.image| / fs.bps && fs.clusterCount == (fs.total - fs.dataStart) / fs.spc
  }

  lemma Measured(size: nat, bps: nat, spc: nat, reserved: nat, fats: nat, fatSize: nat, volume: nat)
    requires volume < U32 && Measure(size, bps, spc, reserved, fats, fatSize, volume).Geometry?
    ensures var g := Measure(size, bps, spc, reserved, fats, fatSize, volume);
      && bps > 0 && spc > 0 && g.dataStart < g.total < U32
      && g.total <= size / bps && g.clusters == (g.total - g.dataStart) / spc
  {
    MeasuredFor(size, bps, spc, reserved, fats, fatSize, volume, size / bps);
  }

  lemma MeasuredFor(size: nat, bps: nat, spc: nat, reserved: nat, fats: nat, fatSize: nat, volume: nat, n: nat)
    requires volume < U32 && bps > 0 && n == size / bps
    requires Measure(size, bps, spc, reserved, fats, fatSize, volume).Geometry?
    ensures var g := Measure(size, bps, spc, reserved, fats, fatSize, volume);
      spc > 0 && g.dataStart < g.total < U32 && g.total <= n && g.clusters == (g.total - g.dataStart) / spc
  {
    assert n % U32 <= n && n % U32 < U32;
  }

  /** Where nothing wraps, the arithmetic accepts a header without zeros exactly when the reserved
      sectors, all tables and two clusters fit into the volume and into the image of n sectors. */
  lemma MeasureAccepts(size: nat, bps: nat, spc: nat, reserved: nat, fats: nat, fatSize: nat, volume: nat, n: nat,
                       end: nat)
    requires bps > 0 && n == size / bps < U32 && end == reserved + fats * fatSize && end + spc < U32
    requires spc > 0 && reserved > 0 && fats > 0 && fatSize > 0 && volume > 0
    ensures Measure(size, bps, spc, reserved, fats, fatSize, volume).Geometry? <==>
      end + 2 * spc <= volume && end + 2 * spc <= n
  {
    assert (size / bps) % U32 == n && (reserved + fats * fatSize) % U32 == end;
    assert (reserved + fats * fatSize + spc) % U32 == end + spc;
    TwoFit(if volume > n then n else volume, end, spc);
  }

  lemma TwoFit(total: nat, start: nat, d: nat)
    requires d > 0
    ensures start < total && (total - start) / d >= 2 <==> start + 2 * d <= total
  {
    var n := total - start;
    if 0 <= n < d {
      DivUnique(n, d, 0, n);
    } else if d <= n < 2 * d {
      DivUnique(n, d, 1, n - d);
    } else if n > 0 {
      MulLe(2, n / d, d);
    }
  }

  lemma ParsedIsMounted(img: seq<Byte>)
    requires ParseHeader(img).AsFat32?
    ensures Mounted(ParseHeader(img).fs) && Describes(img, ParseHeader(img).fs)
  {
    ParsedFields(img);
    var volume := if Rd16(img, 19) == 0 then Rd32(img, 32) else Rd16(img, 19);
    Measured(|img|, Rd16(img, 11), img[13], Rd16(img, 14), img[16], Rd32(img, 36), volume);
  }

  /** The sectors of the volume, of which the image may hold only the front. */
  function Sectors(img: seq<Byte>): nat
    requires |img| >= 512
  {
    if Rd16(img, 19) == 0 then Rd32(img, 32) else Rd16(img, 19)
  }

  /** The sector behind the last copy of the table. */
  function TablesEnd(fs: Fs): nat { fs.reserved + fs.fats * fs.fatSize }

  /** fs is what the header of img says, with the data area behind the reserved sectors and all copies
      of the table; that sum is 32-bit. */
  ghost predicate Describes(img: seq<Byte>, fs: Fs) {
    && |img| >= 512 && img[510] == 0x55 && img[511] == 0xAA && fs.image == img
    && fs.bps == Rd16(img, 11) && fs.spc == img[13] && fs.reserved == Rd16(img, 14) > 0
    && fs.fats == img[16] > 0 && Rd16(img, 22) == 0 && fs.fatSize == Rd32(img, 36) > 0
    && fs.rootCluster == Rd32(img, 44) >= 2 && 0 < fs.total <= Sectors(img)
    && (fs.total < Sectors(img) ==> fs.bps > 0 && fs.total == (|img| / fs.bps) % U32)
    && fs.dataStart == TablesEnd(fs) % U32 && fs.clusterCount >= 2
  }

  lemma ParsedFields(img: seq<Byte>)
    requires ParseHeader(img).AsFat32?
    ensures Describes(img, ParseHeader(img).fs)
  {
  }

  predicate IsValid(fs: Fs, cluster: nat) { 2 <= cluster < (fs.clusterCount + 2) % U32 }

  function ClusterBytes(fs: Fs): nat { fs.bps * fs.spc }

  function Offset(fs: Fs, cluster: nat): nat
    requires cluster >= 2
  {
    (fs.dataStart + (cluster - 2) * fs.spc) * fs.bps
  }

  /** Every cluster that passes the check lies wholly inside the image. */
  lemma ClusterInside(fs: Fs, cluster: nat)
    requires Mounted(fs) && IsValid(fs, cluster)
    ensures Offset(fs, cluster) + ClusterBytes(fs) <= |fs.image|
  {
    var before := (cluster - 2) * fs.spc;
    ClusterCounted(fs, cluster, before);
    SectorsFit(fs, cluster, before, |fs.image| / fs.bps);
  }

  lemma ClusterCounted(fs: Fs, cluster: nat, before: nat)
    requires Mounted(fs) && IsValid(fs, cluster) && before == (cluster - 2) * fs.spc
    ensures fs.dataStart + before + fs.spc <= fs.total
  {
    ValidCounted(fs, cluster);
    CountBounded(fs);
    DataUpTo(cluster, fs.clusterCount, fs.spc);
  }

  lemma SectorsFit(fs: Fs, cluster: nat, before: nat, n: nat)
    requires cluster >= 2 && before == (cluster - 2) * fs.spc
    requires fs.bps > 0 && fs.dataStart + before + fs.spc <= fs.total <= n == |fs.image| / fs.bps
    ensures Offset(fs, cluster) + ClusterBytes(fs) <= |fs.image|
  {
    var first := fs.dataStart + before;
    MulLe(first + fs.spc, n, fs.bps);
    assert (first + fs.spc) * fs.bps == first * fs.bps + fs.bps * fs.spc;
  }

  /** Different clusters do not overlap. */
  lemma ClustersApart(fs: Fs, c: nat, d: nat)
    requires 2 <= c < d
    ensures Offset(fs, c) + ClusterBytes(fs) <= Offset(fs, d)
  {
    var i, j := c - 2, d - 2;
    MulLe(i + 1, j, fs.spc);
    var first, next := fs.dataStart + i * fs.spc, fs.dataStart + j * fs.spc;
    assert (i + 1) * fs.spc == i * fs.spc + fs.spc;
    MulLe(first + fs.spc, next, fs.bps);
    assert (first + fs.spc) * fs.bps == first * fs.bps + fs.spc * fs.bps;
  }

  // ---- Clusters and tables -------------------------------------------------------------------------------

  lemma MulLt(a: nat, b: nat, d: nat)
    requires d > 0
    ensures a < b <==> a * d < b * d
  {
    if a < b {
      MulLe(a + 1, b, d);
    } else {
      MulLe(b, a, d);
    }
  }

  /** Some byte of the cluster is a byte of some copy of the table. */
  predicate TouchesTables(fs: Fs, cluster: nat)
    requires cluster >= 2
  {
    Offset(fs, cluster) < TablesEnd(fs) * fs.bps && fs.reserved * fs.bps < Offset(fs, cluster) + ClusterBytes(fs)
  }

  /** The same in sectors, for a cluster that follows `before` sectors of data. */
  lemma TouchesBySector(fs: Fs, cluster: nat, before: nat, end: nat)
    requires fs.bps > 0 && cluster >= 2 && before == (cluster - 2) * fs.spc && end == TablesEnd(fs)
    ensures TouchesTables(fs, cluster) <==>
      fs.dataStart + before < end && fs.reserved < fs.dataStart + before + fs.spc
  {
    var first := fs.dataStart + before;
    assert (first + fs.spc) * fs.bps == first * fs.bps + fs.bps * fs.spc;
    MulLt(first, end, fs.bps);
    MulLt(fs.reserved, first + fs.spc, fs.bps);
  }

  /** A valid cluster is one of the counted ones, and then the count is too small to wrap. */
  lemma ValidCounted(fs: Fs, cluster: nat)
    requires Mounted(fs) && IsValid(fs, cluster)
    ensures cluster - 1 <= fs.clusterCount && fs.clusterCount + 2 < U32
  {
    CountBounded(fs);
  }

  lemma CountBounded(fs: Fs)
    requires Mounted(fs)
    ensures fs.clusterCount < U32 && fs.clusterCount * fs.spc <= fs.total - fs.dataStart
  {
    MulLe(1, fs.spc, fs.clusterCount);
    assert fs.spc * fs.clusterCount <= fs.total - fs.dataStart;
  }

  lemma DataUpTo(c: nat, n: nat, spc: nat)
    requires 2 <= c && c - 1 <= n
    ensures (c - 2) * spc + spc <= n * spc
  {
    MulLe(c - 1, n, spc);
  }

  /** The end of the tables wraps around 32 bits, and the clusters reach beyond the reserved sectors. */
  predicate TablesWrap(fs: Fs) {
    TablesEnd(fs) >= U32 && fs.clusterCount + 2 < U32 && fs.reserved < fs.dataStart + fs.clusterCount * fs.spc
  }

  /** On an accepted header clusters and tables are apart, unless the end of the tables wraps. */
  lemma TablesApart(fs: Fs, cluster: nat)
    requires Mounted(fs) && Describes(fs.image, fs) && IsValid(fs, cluster) && !TablesWrap(fs)
    ensures !TouchesTables(fs, cluster)
  {
    ValidCounted(fs, cluster);
    ApartCounted(fs, cluster);
  }

  lemma ApartCounted(fs: Fs, cluster: nat)
    requires fs.bps > 0 && 2 <= cluster && cluster - 1 <= fs.clusterCount && fs.clusterCount + 2 < U32
    requires fs.dataStart == TablesEnd(fs) % U32 && !TablesWrap(fs)
    ensures !TouchesTables(fs, cluster)
  {
    DataUpTo(cluster, fs.clusterCount, fs.spc);
    TouchesBySector(fs, cluster, (cluster - 2) * fs.spc, TablesEnd(fs));
  }

  /** When it wraps, the last cluster overlaps them. */
  lemma WrappedTablesTouched(fs: Fs)
    requires Mounted(fs) && TablesWrap(fs) && fs.clusterCount >= 2
    ensures IsValid(fs, fs.clusterCount + 1) && TouchesTables(fs, fs.clusterCount + 1)
  {
    CountBounded(fs);
    TouchedCounted(fs, fs.clusterCount);
  }

  lemma TouchedCounted(fs: Fs, n: nat)
    requires fs.bps > 0 && n >= 1 && fs.dataStart + n * fs.spc < U32 <= TablesEnd(fs)
    requires fs.reserved < fs.dataStart + n * fs.spc
    ensures TouchesTables(fs, n + 1)
  {
    DataUpTo(n + 1, n, fs.spc);
    assert n * fs.spc == (n - 1) * fs.spc + fs.spc;
    TouchesBySector(fs, n + 1, (n - 1) * fs.spc, TablesEnd(fs));
  }

  // ---- Chains -----------------------------------------------------------------------------------------

  /** fat_next_cluster, FAT32 branch. */
  function Next(fs: Fs, cluster: nat): nat {
    var off := fs.reserved * fs.bps + cluster * 4;
    if off + 4 > |fs.image| then EOC else Rd32(fs.image, off) % 0x1000_0000
  }

  /** The four bytes of entry `cluster` of the first table, without their top four bits; beyond the
      image every chain ends. */
  lemma NextReads(fs: Fs, cluster: nat)
    ensures var at := fs.reserved * fs.bps + 4 * cluster;
      if at + 4 <= |fs.image| then
        var a: nat, b: nat, c: nat, d: nat := fs.image[at], fs.image[at + 1], fs.image[at + 2], fs.image[at + 3];
        Next(fs, cluster) == a + 0x100 * b + 0x1_0000 * c + 0x100_0000 * (d % 0x10)
      else Next(fs, cluster) == EOC
  {
    var at := fs.reserved * fs.bps + 4 * cluster;
    if at + 4 <= |fs.image| {
      var d: nat := fs.image[at + 3];
      LowBits(Rd32(fs.image, at) - 0x100_0000 * d, d);
    }
  }

  lemma LowBits(low: nat, d: nat)
    requires low < 0x100_0000
    ensures (low + 0x100_0000 * d) % 0x1000_0000 == low + 0x100_0000 * (d % 0x10)
  {
    DivUnique(low + 0x100_0000 * d, 0x1000_0000, d / 0x10, low + 0x100_0000 * (d % 0x10));
  }

  // ---- The volume as a reader of chains sees it ------------------------------------------------------------

  /** Clusters by number: which exist, what each holds, and what the table says comes next. */
  datatype Volume = Volume(cb: nat, valid: nat -> bool, next: nat -> nat, data: nat -> seq<Byte>)

  ghost predicate Sound(v: Volume) {
    v.cb > 0 && forall c: nat :: v.valid(c) ==> |v.data(c)| == v.cb
  }

  function VolumeOf(fs: Fs): Volume {
    Volume(ClusterBytes(fs), (c: nat) => IsValid(fs, c), (c: nat) => Next(fs, c), (c: nat) => ClusterData(fs, c))
  }

  function ClusterData(fs: Fs, c: nat): seq<Byte> {
    if c < 2 then []
    else
      var at, n := Offset(fs, c), ClusterBytes(fs);
      if at + n <= |fs.image| then fs.image[at..at + n] else []
  }

  lemma MountedIsSound(fs: Fs)
    requires Mounted(fs)
    ensures Sound(VolumeOf(fs)) && 0 < ClusterBytes(fs) < U32
  {
    MulLe(1, fs.spc, fs.bps);
    MulLe(fs.spc, 0xFF, fs.bps);
    forall c: nat | IsValid(fs, c)
      ensures |ClusterData(fs, c)| == ClusterBytes(fs)
    {
      ClusterInside(fs, c);
    }
  }

  /** The i-th cluster of the chain from `start`. */
  function ClusterAt(v: Volume, start: nat, i: nat): (c: Cluster)
    ensures c.At? ==> v.valid(c.number)
    decreases i
  {
    if i == 0 then (if v.valid(start) then At(start) else End)
    else
      match ClusterAt(v, start, i - 1)
      case End => End
      case At(c) => After(v, c)
  }

  /** Where the chain goes from c. */
  function After(v: Volume, c: nat): (n: Cluster)
    ensures n.At? ==> v.valid(n.number)
  {
    if v.next(c) >= EOC || !v.valid(v.next(c)) then End else At(v.next(c))
  }

  lemma {:induction false} EndStays(v: Volume, start: nat, i: nat, j: nat)
    requires i <= j && ClusterAt(v, start, i).End?
    ensures ClusterAt(v, start, j).End?
    decreases j
  {
    if i < j {
      EndStays(v, start, i, j - 1);
    }
  }

  /** The byte at offset o along the chain, where the chain reaches that far. */
  function ByteAt(v: Volume, start: nat, o: nat): Byte
    requires Sound(v) && ClusterAt(v, start, o / v.cb).At?
  {
    v.data(ClusterAt(v, start, o / v.cb).number)[o % v.cb]
  }

  /** The chain reaches every byte of a file of this size. */
  ghost predicate Covers(v: Volume, start: nat, size: nat)
    requires Sound(v)
  {
    forall o: nat :: o < size ==> Reached(v, start, o)
  }

  predicate Reached(v: Volume, start: nat, o: nat)
    requires v.cb > 0
  {
    ClusterAt(v, start, o / v.cb).At?
  }

  /** The clusters along the chain, cut to size. */
  function Contents(v: Volume, start: nat, size: nat): seq<Byte>
    requires Sound(v) && Covers(v, start, size)
  {
    seq<Byte>(size, o requires 0 <= o < size && Reached(v, start, o) => ByteAt(v, start, o))
  }
}
