/**
  The packed flash image and its three views: unpackrtl.py spreads it over 64 KiB banks, CODE_BANK and DATA_BANK
  map those banks, and the SPI hook of rtl8367s.lua recomputes the same layout.
*/
module FlashImage {
  import opened Bits
  import opened Pages

  function Zeros(n: nat): (z: seq<byte>)
    ensures |z| == n
  {
    seq(n, _ => 0)
  }

  /** Python's data[:n]. */
  function Take(data: seq<byte>, n: nat): seq<byte> {
    if n <= |data| then data[..n] else data
  }

  /** Python's data[n:]. */
  function After(data: seq<byte>, n: nat): (rest: seq<byte>)
    ensures |rest| == if n <= |data| then |data| - n else 0
  {
    if n <= |data| then data[n..] else []
  }

  /** What the loop writes for the data it has left. */
  function Chunks(data: seq<byte>): seq<byte>
    decreases |data|
  {
    if data == [] then [] else Zeros(0x4000) + Take(data, 0xc000) + Chunks(After(data, 0xc000))
  }

  function Head(image: seq<byte>): seq<byte> {
    After(Take(image, 0x4000), 2) + Zeros(0xc002)
  }

  function Unpacked(image: seq<byte>): seq<byte> {
    Head(image) + Chunks(After(image, 0x4000))
  }

  method Unpack(image: seq<byte>) returns (out: seq<byte>)
    ensures out == Unpacked(image)
  {
    out := After(Take(image, 0x4000), 2);
    out := out + Zeros(0xc002);
    var data := After(image, 0x4000);
    while data != []
      invariant out + Chunks(data) == Unpacked(image)
      decreases |data|
    {
      ghost var was := out;
      out := out + Zeros(0x4000);
      out := out + Take(data, 0xc000);
      assert was + Chunks(data) == out + Chunks(After(data, 0xc000));
      data := After(data, 0xc000);
    }
    assert out + [] == out;
  }

  // ----- where each packed byte goes -----

  function ChunkAddr(j: nat): nat {
    j / 0xc000 * 0x1_0000 + 0x4000 + j % 0xc000
  }

  /** Unpacked address of packed byte p; the SPI hook computes the same expression. */
  function UnpackedAddr(p: nat): nat
    requires p >= 0x4000
  {
    0x1_0000 + ChunkAddr(p - 0x4000)
  }

  /** Packed index of address `addr` of bank `bank`. */
  function PackedIndex(bank: nat, addr: nat): nat
    requires bank >= 1 && addr >= 0x4000
  {
    0x4000 + (bank - 1) * 0xc000 + (addr - 0x4000)
  }

  lemma {:induction false} ChunkByte(data: seq<byte>, j: nat)
    requires j < |data|
    ensures ChunkAddr(j) < |Chunks(data)| && Chunks(data)[ChunkAddr(j)] == data[j]
    decreases |data|
  {
    if j >= 0xc000 {
      ChunkByte(After(data, 0xc000), j - 0xc000);
      assert ChunkAddr(j) == 0x1_0000 + ChunkAddr(j - 0xc000);
    }
  }

  /** The first 0x4000 bytes of every bank after bank 0 are zero. */
  lemma {:induction false} ChunkGap(data: seq<byte>, a: nat)
    requires a < |Chunks(data)| && a % 0x1_0000 < 0x4000
    ensures Chunks(data)[a] == 0
    decreases |data|
  {
    if a >= 0x1_0000 {
      ChunkGap(After(data, 0xc000), a - 0x1_0000);
    }
  }

  /** Every byte of a bank above its code area comes from a packed byte. */
  lemma {:induction false} ChunkOnto(data: seq<byte>, a: nat)
    requires a < |Chunks(data)| && a % 0x1_0000 >= 0x4000
    ensures var j := a / 0x1_0000 * 0xc000 + (a % 0x1_0000 - 0x4000); j < |data| && ChunkAddr(j) == a
    decreases |data|
  {
    if a >= 0x1_0000 {
      ChunkOnto(After(data, 0xc000), a - 0x1_0000);
      assert (a - 0x1_0000) % 0x1_0000 == a % 0x1_0000 && (a - 0x1_0000) / 0x1_0000 == a / 0x1_0000 - 1;
    }
  }

  lemma HeadSize(image: seq<byte>)
    requires |image| >= 0x4000
    ensures |Head(image)| == 0x1_0000
  {
  }

  /** Every packed byte from 0x4000 on is at its unpacked address. */
  lemma UnpackedByte(image: seq<byte>, p: nat)
    requires 0x4000 <= p < |image|
    ensures UnpackedAddr(p) < |Unpacked(image)| && Unpacked(image)[UnpackedAddr(p)] == image[p]
  {
    HeadSize(image);
    ChunkByte(After(image, 0x4000), p - 0x4000);
  }

  /** The low bytes move down by two; all of bank 0 above them, and each later bank's code area, is zero. */
  lemma UnpackedRest(image: seq<byte>, a: nat)
    requires |image| >= 0x4000 && a < |Unpacked(image)|
    ensures a < 0x3ffe ==> Unpacked(image)[a] == image[a + 2]
    ensures 0x3ffe <= a < 0x1_0000 ==> Unpacked(image)[a] == 0
    ensures 0x1_0000 <= a && a % 0x1_0000 < 0x4000 ==> Unpacked(image)[a] == 0
  {
    HeadSize(image);
    if 0x1_0000 <= a && a % 0x1_0000 < 0x4000 {
      ChunkGap(After(image, 0x4000), a - 0x1_0000);
    }
  }

  /** So outside bank 0 the output holds the packed bytes and those zeros, and nothing else. */
  lemma UnpackedOnto(image: seq<byte>, a: nat)
    requires |image| >= 0x4000 && 0x1_0000 <= a < |Unpacked(image)| && a % 0x1_0000 >= 0x4000
    ensures var p := PackedIndex(a / 0x1_0000, a % 0x1_0000); p < |image| && UnpackedAddr(p) == a
  {
    HeadSize(image);
    ChunkOnto(After(image, 0x4000), a - 0x1_0000);
    assert (a - 0x1_0000) % 0x1_0000 == a % 0x1_0000 && (a - 0x1_0000) / 0x1_0000 == a / 0x1_0000 - 1;
  }

  /** The output ends with bank 0, or right after the last packed byte. */
  lemma UnpackedSize(image: seq<byte>)
    requires |image| >= 0x4000
    ensures |Unpacked(image)| == if |image| == 0x4000 then 0x1_0000 else UnpackedAddr(|image| - 1) + 1
  {
    HeadSize(image);
    ChunksSize(After(image, 0x4000));
  }

  lemma {:induction false} ChunksSize(data: seq<byte>)
    ensures |Chunks(data)| == if data == [] then 0 else ChunkAddr(|data| - 1) + 1
    decreases |data|
  {
    if |data| > 0xc000 {
      ChunksSize(After(data, 0xc000));
      assert ChunkAddr(|data| - 1) == 0x1_0000 + ChunkAddr(|data| - 1 - 0xc000);
    }
  }

  /** An image too short for bank 0 only loses its first two bytes and gains 0xc002 zeros. */
  lemma UnpackedShort(image: seq<byte>, a: nat)
    requires 2 <= |image| < 0x4000
    ensures |Unpacked(image)| == |image| - 2 + 0xc002
    ensures a < |Unpacked(image)| ==> Unpacked(image)[a] == if a < |image| - 2 then image[a + 2] else 0
  {
  }

  lemma UnpackedAddrIncreasing(p: nat, q: nat)
    requires 0x4000 <= p < q
    ensures UnpackedAddr(p) < UnpackedAddr(q)
  {
  }

  // ----- packing back -----

  function PackChunks(out: seq<byte>): seq<byte>
    decreases |out|
  {
    if out == [] then [] else After(Take(out, 0x1_0000), 0x4000) + PackChunks(After(out, 0x1_0000))
  }

  function Pack(out: seq<byte>): seq<byte> {
    Take(out, 0x3ffe) + PackChunks(After(out, 0x1_0000))
  }

  lemma {:induction false} PackChunksInverts(data: seq<byte>)
    ensures PackChunks(Chunks(data)) == data
    decreases |data|
  {
    if data != [] {
      var out, rest := Chunks(data), After(data, 0xc000);
      PackChunksInverts(rest);
      if |data| < 0xc000 {
        assert Chunks(rest) == [];
        assert After(Take(out, 0x1_0000), 0x4000) == data;
        assert After(out, 0x1_0000) == [];
      } else {
        assert |Zeros(0x4000) + Take(data, 0xc000)| == 0x1_0000;
        assert After(Take(out, 0x1_0000), 0x4000) == data[..0xc000];
        assert After(out, 0x1_0000) == Chunks(rest);
      }
    }
  }

  /** Unpacking loses nothing but the first two bytes. */
  lemma PackInvertsUnpack(image: seq<byte>)
    requires |image| >= 0x4000
    ensures Pack(Unpacked(image)) == image[2..]
  {
    HeadSize(image);
    var data := After(image, 0x4000);
    PackChunksInverts(data);
    assert After(Unpacked(image), 0x1_0000) == Chunks(data);
    assert Take(Unpacked(image), 0x3ffe) == image[2..0x4000];
  }

  // ----- the views -----

  lemma PackedIndexAddr(bank: byte, addr: word)
    requires bank >= 1 && addr >= 0x4000
    ensures UnpackedAddr(PackedIndex(bank, addr)) == bank * 0x1_0000 + addr
  {
  }

  /** The rom buffer is the unpacked image and whatever padding follows it. */
  predicate Loaded(rom: seq<byte>, image: seq<byte>) {
    Unpacked(image) <= rom
  }

  lemma LoadedByte(rom: seq<byte>, image: seq<byte>, p: nat)
    requires Loaded(rom, image) && 0x4000 <= p < |image|
    ensures UnpackedAddr(p) < |rom| && rom[UnpackedAddr(p)] == image[p]
  {
    UnpackedByte(image, p);
  }

  /** Code fetch under CODE_BANK, readx under DATA_BANK and the packed image show the same byte. */
  lemma FlashViewsAgree(image: seq<byte>, t: Table, x: Xram, bank: byte, addr: word)
    requires Loaded(x.rom, image) && Inv(x)
    requires bank >= 1 && addr >= 0x4000 && PackedIndex(bank, addr) < |image|
    ensures var code := SetCodeBank(t, bank); var data := SetDataBank(x, bank);
      && code[addr / 0x100] == At(Rom, bank * 0x1_0000 + addr / 0x100 * 0x100)
      && bank * 0x1_0000 + addr < |x.rom|
      && Fetch(code, x.rom, addr) == image[PackedIndex(bank, addr)]
      && InBuffer(data, addr)
      && ReadX(data, addr) == image[PackedIndex(bank, addr)]
  {
    PackedIndexAddr(bank, addr);
    LoadedByte(x.rom, image, PackedIndex(bank, addr));
    CodeView(t, bank, addr);
    DataBankKeepsInv(x, bank);
    ReadBanked(SetDataBank(x, bank), addr);
  }

  lemma CodeView(t: Table, bank: byte, addr: word)
    requires addr >= 0x4000
    ensures SetCodeBank(t, bank)[addr / 0x100] == At(Rom, bank * 0x1_0000 + addr / 0x100 * 0x100)
    ensures addr / 0x100 * 0x100 + addr % 0x100 == addr
  {
    var p := addr / 0x100;
    assert PageIndex(0x40, p) == p - 0x40;
  }

  // ----- SPI reads -----

  /** The translation in sfr_cache_ctrl. */
  function Translated(adr: nat): nat {
    if adr > 0x4000 then
      var bank := (adr - 0x4000) / 0xc000 + 1;
      var ofs := (adr - 0x4000) % 0xc000 + 0x4000;
      bank * 0x1_0000 + ofs
    else adr
  }

  /** Up to 0x4000 the address is used as it is: it finds packed byte adr + 2, or a zero from 0x3ffe on. */
  lemma TranslatedLow(image: seq<byte>, adr: nat)
    requires |image| >= 0x4000 && adr <= 0x4000
    ensures Translated(adr) == adr < |Unpacked(image)|
    ensures Unpacked(image)[Translated(adr)] == if adr < 0x3ffe then image[adr + 2] else 0
  {
    HeadSize(image);
    UnpackedRest(image, adr);
  }

  lemma TranslatedIsUnpackedAddr(adr: nat)
    requires adr > 0x4000
    ensures Translated(adr) == UnpackedAddr(adr)
  {
  }

  /** Reading on past the translated address stays on consecutive packed bytes up to the bank end. */
  lemma SpiByte(rom: seq<byte>, image: seq<byte>, adr: nat, k: nat)
    requires Loaded(rom, image) && adr > 0x4000 && adr + k < |image| && (adr - 0x4000) % 0xc000 + k < 0xc000
    ensures Translated(adr) + k < |rom| && rom[Translated(adr) + k] == image[adr + k]
  {
    assert UnpackedAddr(adr + k) == UnpackedAddr(adr) + k;
    LoadedByte(rom, image, adr + k);
  }

  /** Past the bank end it reads the zeros at the start of the next bank, whatever the image holds. */
  lemma SpiByteBeyondBank(rom: seq<byte>, image: seq<byte>, adr: nat, k: nat)
    requires Loaded(rom, image) && |image| >= 0x4000 && adr > 0x4000 && k < 4
    requires (adr - 0x4000) % 0xc000 + k >= 0xc000 && Translated(adr) + k < |Unpacked(image)|
    ensures rom[Translated(adr) + k] == 0
  {
    assert (Translated(adr) + k) % 0x1_0000 < 0x4000;
    UnpackedRest(image, Translated(adr) + k);
  }

  /** A whole image in which packed byte adr is 1 and every other byte 0. */
  function Marked(adr: nat): (image: seq<byte>)
    ensures |image| > adr && |image| >= 0x4000
  {
    seq(adr + 0x4000, i => if i == adr then 1 else 0)
  }

  /** The translation finds the right byte of every image exactly for addresses above 0x4000. */
  lemma TranslationExact(adr: nat)
    ensures adr > 0x4000 <==>
      forall image: seq<byte> :: |image| >= 0x4000 && adr < |image| ==>
        Translated(adr) < |Unpacked(image)| && Unpacked(image)[Translated(adr)] == image[adr]
  {
    if adr > 0x4000 {
      forall image: seq<byte> | |image| >= 0x4000 && adr < |image|
        ensures Translated(adr) < |Unpacked(image)| && Unpacked(image)[Translated(adr)] == image[adr]
      {
        UnpackedByte(image, adr);
      }
    } else {
      var image := Marked(adr);
      HeadSize(image);
      UnpackedRest(image, adr);
      assert Unpacked(image)[Translated(adr)] != image[adr];
    }
  }

  class Spi {
    const rom: array<byte>
    var addr0: byte
    var addr1: byte
    var addr2: byte
    var rcmd: byte
    var data0: byte
    var data1: byte
    var data2: byte
    var data3: byte

    constructor (rom: array<byte>)
      ensures this.rom == rom
    {
      this.rom := rom;
      addr0, addr1, addr2, rcmd := 0, 0, 0, 0;
      data0, data1, data2, data3 := 0, 0, 0, 0;
    }

    function Address(): nat
      reads this
    {
      Or(Or(addr2 * 0x1_0000, addr1 * 0x100), addr0)
    }

    /**
      sfr_cache_ctrl for a write. Its test `data & 4` is a number, which Lua counts as true, so every written value
      starts the command. Command 5 reads a not-busy status, command 0xbb four bytes; others do nothing.
    */
    method SfrCacheCtrl(data: byte)
      requires rcmd == 0xbb ==> Translated(Address()) + 3 < rom.Length
      modifies this`data0, this`data1, this`data2, this`data3
      ensures Address() == addr2 * 0x1_0000 + addr1 * 0x100 + addr0
      ensures rcmd == 0xbb ==> var t := Translated(Address());
              data0 == rom[t] && data1 == rom[t + 1] && data2 == rom[t + 2] && data3 == rom[t + 3]
      ensures rcmd == 5 ==> data0 == 0
      ensures rcmd != 0xbb ==>
              data1 == old(data1) && data2 == old(data2) && data3 == old(data3) && (rcmd != 5 ==> data0 == old(data0))
    {
      AddressValue(addr2, addr1, addr0);
      var adr := Or(Or(addr2 * 0x1_0000, addr1 * 0x100), addr0);
      var unpadr := adr;
      if adr > 0x4000 {
        var bank := (adr - 0x4000) / 0xc000 + 1;
        var ofs := (adr - 0x4000) % 0xc000 + 0x4000;
        unpadr := bank * 0x1_0000 + ofs;
      }
      if rcmd == 5 {
        data0 := 0;
      } else if rcmd == 0xbb {
        data0 := rom[unpadr];
        data1 := rom[unpadr + 1];
        data2 := rom[unpadr + 2];
        data3 := rom[unpadr + 3];
      }
    }
  }

  /** The three address bytes, shifted and or-ed together, are the address they spell. */
  lemma AddressValue(addr2: byte, addr1: byte, addr0: byte)
    ensures Or(Or(addr2 * 0x1_0000, addr1 * 0x100), addr0) == addr2 * 0x1_0000 + addr1 * 0x100 + addr0
  {
    Pow2Values();
    OrDisjoint(addr2, addr1 * 0x100, 16);
    var high := addr2 * 0x100 + addr1;
    OrDisjoint(high, addr0, 8);
    assert high * 0x100 == addr2 * 0x1_0000 + addr1 * 0x100;
  }

  /** A four-byte read at adr gives packed bytes adr to adr + 3. */
  predicate ReadsRight(image: seq<byte>, adr: nat)
    requires adr + 4 <= |image|
  {
    ReadsByte(image, adr, 0) && ReadsByte(image, adr, 1) && ReadsByte(image, adr, 2) && ReadsByte(image, adr, 3)
  }

  predicate ReadsByte(image: seq<byte>, adr: nat, k: nat)
    requires adr + k < |image|
  {
    Translated(adr) + k < |Unpacked(image)| && Unpacked(image)[Translated(adr) + k] == image[adr + k]
  }

  /** Above 0x4000 and short of a bank end. */
  predicate InsideBank(adr: nat) {
    adr > 0x4000 && (adr - 0x4000) % 0xc000 <= 0xc000 - 4
  }

  /** Command 0xbb returns four consecutive packed bytes of every image exactly where it stays inside a bank. */
  lemma SpiReadExact(adr: nat)
    ensures InsideBank(adr) <==>
      forall image: seq<byte> :: |image| >= 0x4000 && adr + 4 <= |image| ==> ReadsRight(image, adr)
  {
    if InsideBank(adr) {
      forall image: seq<byte> | |image| >= 0x4000 && adr + 4 <= |image|
        ensures ReadsRight(image, adr)
      {
        SpiReadsPackedBytes(Unpacked(image), image, adr);
        UnpackedByte(image, adr + 3);
      }
    } else if adr > 0x4000 {
      var image := Marked(adr + 3);
      SpiCrosses(image, adr);
      assert !ReadsByte(image, adr, 3);
      assert !ReadsRight(image, adr);
    } else {
      var image := Marked(adr);
      HeadSize(image);
      UnpackedRest(image, adr);
      assert !ReadsByte(image, adr, 0);
      assert !ReadsRight(image, adr);
    }
  }

  /** The last byte of a read across a bank end is zero. */
  lemma SpiCrosses(image: seq<byte>, adr: nat)
    requires |image| >= 0x4000 && adr > 0x4000 && !InsideBank(adr) && adr + 4 <= |image|
    ensures Translated(adr) + 3 < |Unpacked(image)| && Unpacked(image)[Translated(adr) + 3] == 0
  {
    UnpackedByte(image, adr + 3);
    UnpackedAddrIncreasing(adr, adr + 3);
    assert UnpackedAddr(adr + 3) >= Translated(adr) + 3;
    SpiByteBeyondBank(Unpacked(image), image, adr, 3);
  }

  /** Command 0xbb at a packed address above 0x4000, short of a bank end, returns four consecutive packed bytes. */
  lemma SpiReadsPackedBytes(rom: seq<byte>, image: seq<byte>, adr: nat)
    requires Loaded(rom, image) && adr > 0x4000 && adr + 4 <= |image| && (adr - 0x4000) % 0xc000 <= 0xc000 - 4
    ensures var t := Translated(adr);
      t + 3 < |rom| && rom[t] == image[adr] && rom[t + 1] == image[adr + 1] && rom[t + 2] == image[adr + 2] &&
      rom[t + 3] == image[adr + 3]
  {
    SpiByte(rom, image, adr, 0);
    SpiByte(rom, image, adr, 1);
    SpiByte(rom, image, adr, 2);
    SpiByte(rom, image, adr, 3);
  }
}
