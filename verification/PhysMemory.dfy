/** Physical memory as untyped bytes, one 4 KiB frame at a time, and the little-endian 64-bit
    words that page tables and user stacks store in it. */
module PhysMemory {

  const PAGE: nat := 4096
  const WORD: nat := 0x1_0000_0000_0000_0000

  type Byte = x: nat | x < 256
  type Frame = f: seq<Byte> | |f| == PAGE witness Zeros(PAGE)
  type Memory = map<nat, Frame>

  function Zeros(n: nat): (z: seq<Byte>)
    ensures |z| == n && forall i :: 0 <= i < n ==> z[i] == 0
  {
    seq(n, _ => 0)
  }

  function FrameAt(mem: Memory, f: nat): Frame {
    if f in mem then mem[f] else Zeros(PAGE)
  }

  // ---- Little-endian words -----------------------------------------------------------------

  function Le(bs: seq<Byte>): nat {
    if bs == [] then 0 else bs[0] + 256 * Le(bs[1..])
  }

  function Bytes(v: nat, n: nat): (bs: seq<Byte>)
    ensures |bs| == n
  {
    if n == 0 then [] else [v % 256] + Bytes(v / 256, n - 1)
  }

  function Pow256(n: nat): nat {
    if n == 0 then 1 else 256 * Pow256(n - 1)
  }

  /** Storing a word and loading it again gives the same word. */
  lemma {:induction false} LoadAfterStore(v: nat, n: nat)
    requires v < Pow256(n)
    ensures Le(Bytes(v, n)) == v
    decreases n
  {
    if n > 0 {
      LoadAfterStore(v / 256, n - 1);
      assert Bytes(v, n)[1..] == Bytes(v / 256, n - 1);
    }
  }

  lemma {:induction false} LeOfZeros(bs: seq<Byte>)
    requires forall i :: 0 <= i < |bs| ==> bs[i] == 0
    ensures Le(bs) == 0
  {
    if bs != [] {
      LeOfZeros(bs[1..]);
    }
  }

  // ---- Table entries ------------------------------------------------------------------------

  function Entry(mem: Memory, f: nat, i: nat): nat
    requires i < 512
  {
    Le(FrameAt(mem, f)[8 * i..8 * i + 8])
  }

  function SetEntry(mem: Memory, f: nat, i: nat, v: nat): Memory
    requires i < 512
  {
    var fr := FrameAt(mem, f);
    mem[f := fr[..8 * i] + Bytes(v, 8) + fr[8 * i + 8..]]
  }

  /** A store to one entry is seen there and nowhere else. */
  lemma EntryAfterSet(mem: Memory, f: nat, i: nat, v: nat, g: nat, j: nat)
    requires i < 512 && j < 512 && v < WORD
    ensures Entry(SetEntry(mem, f, i, v), g, j) == if g == f && j == i then v else Entry(mem, g, j)
  {
    if g == f {
      var fr := FrameAt(mem, f);
      var fr' := FrameAt(SetEntry(mem, f, i, v), f);
      if j == i {
        assert fr'[8 * j..8 * j + 8] == Bytes(v, 8);
        assert Pow256(8) == WORD;
        LoadAfterStore(v, 8);
      } else {
        assert fr'[8 * j..8 * j + 8] == fr[8 * j..8 * j + 8];
      }
    }
  }

  lemma {:induction false} LeBounded(bs: seq<Byte>)
    ensures Le(bs) < Pow256(|bs|)
  {
    if bs != [] {
      LeBounded(bs[1..]);
    }
  }

  lemma EntryFits(mem: Memory, f: nat, i: nat)
    requires i < 512
    ensures Entry(mem, f, i) < WORD
  {
    LeBounded(FrameAt(mem, f)[8 * i..8 * i + 8]);
    assert Pow256(8) == WORD;
  }

  lemma EntryOfZero(mem: Memory, f: nat, j: nat)
    requires j < 512 && FrameAt(mem, f) == Zeros(PAGE)
    ensures Entry(mem, f, j) == 0
  {
    LeOfZeros(Zeros(PAGE)[8 * j..8 * j + 8]);
  }
}
