// The superblock and the regions of the disk it lays out.
module Layout {
  import opened BlockCache
  import opened FileBytes

  const NDATA: nat := 64

  newtype uint32 = x: int | 0 <= x < 0x1_0000_0000

  datatype Superblock = Superblock(size: uint32, device: uint32, nLogBlock: uint32, nInodeBlock: uint32,
                                   nDataBlock: uint32, logStart: uint32, inodeStart: uint32,
                                   bitmapStart: uint32, dataStart: uint32)

  // A 32-bit word of a struct, least significant byte first.
  function Word(s: seq<byte>, at: nat): uint32
    requires at + 4 <= |s|
  {
    (s[at] as int + 0x100 * s[at + 1] as int + 0x1_0000 * s[at + 2] as int + 0x100_0000 * s[at + 3] as int) as uint32
  }

  function WordBytes(w: uint32): (s: seq<byte>)
    ensures |s| == 4 && Word(s, 0) == w
  {
    var a := w as int;
    var b := a / 0x100;
    var c := b / 0x100;
    [(a % 0x100) as byte, (b % 0x100) as byte, (c % 0x100) as byte, (c / 0x100) as byte]
  }

  function Words(ws: seq<uint32>): (s: seq<byte>)
    ensures |s| == 4 * |ws|
    ensures forall i :: 0 <= i < |ws| ==> Word(s, 4 * i) == ws[i]
  {
    if ws == [] then [] else
      var s := Words(ws[..|ws| - 1]) + WordBytes(ws[|ws| - 1]);
      assert forall i :: 0 <= i < |ws| - 1 ==> Word(s, 4 * i) == ws[..|ws| - 1][i];
      s
  }

  // The members in the order of the struct.
  function Members(sb: Superblock): (ws: seq<uint32>)
    ensures |ws| == 9 && FromMembers(ws) == sb
  {
    [sb.size, sb.device, sb.nLogBlock, sb.nInodeBlock, sb.nDataBlock,
     sb.logStart, sb.inodeStart, sb.bitmapStart, sb.dataStart]
  }

  function FromMembers(ws: seq<uint32>): Superblock
    requires |ws| == 9
  {
    Superblock(ws[0], ws[1], ws[2], ws[3], ws[4], ws[5], ws[6], ws[7], ws[8])
  }

  // readSuperblock: memmove of the struct from the front of the block.
  function Decode(s: seq<byte>): Superblock
    requires |s| == BSIZE
  {
    FromMembers(seq(9, i requires 0 <= i < 9 => Word(s, 4 * i)))
  }

  lemma WordOfPrefix(r: seq<byte>, s: seq<byte>, at: nat)
    requires |s| <= |r| && at + 4 <= |s|
    requires forall i :: 0 <= i < |s| ==> r[i] == s[i]
    ensures Word(r, at) == Word(s, at)
  {
  }

  // writeSuperblock: memset, then memmove of the struct to the front of the block.
  function Encode(sb: Superblock): (s: seq<byte>)
    ensures |s| == BSIZE
  {
    Splice(seq(BSIZE, _ => 0), 0, Words(Members(sb)))
  }

  lemma DecodeEncode(sb: Superblock)
    ensures Decode(Encode(sb)) == sb
  {
    var s, r := Words(Members(sb)), Encode(sb);
    var ws := seq(9, i requires 0 <= i < 9 => Word(r, 4 * i));
    forall i | 0 <= i < 9 ensures ws[i] == Members(sb)[i] {
      WordOfPrefix(r, s, 4 * i);
    }
    assert ws == Members(sb);
  }

  // The four bytes at an offset are those of the word, least significant first.
  predicate Holds(s: seq<byte>, at: nat, w: uint32)
    requires at + 4 <= |s|
  {
    var n := w as int;
    && s[at] as int == n % 0x100 && s[at + 1] as int == n / 0x100 % 0x100
    && s[at + 2] as int == n / 0x100 / 0x100 % 0x100 && s[at + 3] as int == n / 0x100 / 0x100 / 0x100
  }

  lemma WordHolds(s: seq<byte>, at: nat)
    requires at + 4 <= |s|
    ensures Holds(s, at, Word(s, at))
  {
    var a, b, c, d := s[at] as int, s[at + 1] as int, s[at + 2] as int, s[at + 3] as int;
    var n := Word(s, at) as int;
    LowDigit(a, b + 0x100 * (c + 0x100 * d), n);
    LowDigit(b, c + 0x100 * d, n / 0x100);
    LowDigit(c, d, n / 0x100 / 0x100);
  }

  lemma LowDigit(a: int, q: int, n: int)
    requires 0 <= a < 0x100 && n == a + 0x100 * q
    ensures n % 0x100 == a && n / 0x100 == q
  {
  }

  // A superblock on the disk: each member at its offset, least significant byte first, and zeros
  // behind the last.
  lemma EncodeBytes(sb: Superblock)
    ensures
      var s := Encode(sb);
      && Holds(s, 0, sb.size) && Holds(s, 4, sb.device) && Holds(s, 8, sb.nLogBlock)
      && Holds(s, 12, sb.nInodeBlock) && Holds(s, 16, sb.nDataBlock) && Holds(s, 20, sb.logStart)
      && Holds(s, 24, sb.inodeStart) && Holds(s, 28, sb.bitmapStart) && Holds(s, 32, sb.dataStart)
      && (forall i :: 36 <= i < BSIZE ==> s[i] == 0)
  {
    var s := Encode(sb);
    DecodeEncode(sb);
    DecodeBytes(s);
  }

  // What readSuperblock finds in any block: the members whose bytes stand at their offsets.
  lemma DecodeBytes(s: seq<byte>)
    requires |s| == BSIZE
    ensures
      var sb := Decode(s);
      && Holds(s, 0, sb.size) && Holds(s, 4, sb.device) && Holds(s, 8, sb.nLogBlock)
      && Holds(s, 12, sb.nInodeBlock) && Holds(s, 16, sb.nDataBlock) && Holds(s, 20, sb.logStart)
      && Holds(s, 24, sb.inodeStart) && Holds(s, 28, sb.bitmapStart) && Holds(s, 32, sb.dataStart)
  {
    hide Word, Holds;
    WordHolds(s, 0);
    WordHolds(s, 4);
    WordHolds(s, 8);
    WordHolds(s, 12);
    WordHolds(s, 16);
    WordHolds(s, 20);
    WordHolds(s, 24);
    WordHolds(s, 28);
    WordHolds(s, 32);
  }
}
