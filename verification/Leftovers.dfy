/** The file that a failed build leaves behind never opens: its header is the placeholder, which sends the
    reader to the start of the file, where the magic reads as the number of index entries. */
module Leftovers {
  import opened Bytes
  import opened Tables
  import opened SstFormat
  import opened Sstable
  import opened SstBuilder

  // Every index entry takes up ten bytes at least.
  lemma {:induction false} EntriesNeedRoom(p: bytes, n: nat)
    requires ReadEntries(p, n).Some?
    ensures 10 * n <= |p|
    decreases n
  {
    if n > 0 { EntriesNeedRoom(ReadEntry(p).value.1, n - 1); }
  }

  // Read as a number, the magic exceeds a tenth of 2^64.
  lemma MagicIsLarge(magic: bytes)
    requires magic == MAGIC
    ensures 10 * LeValue(magic) > UINT64_SIZE
  {
    var front := magic[..7];
    assert magic == front + [0x31];
    LeValueSnoc(front, 0x31);
    SevenBytes();
  }

  lemma SevenBytes()
    ensures 10 * (0x31 * Pow256(7)) > UINT64_SIZE
  {
    WordSizes();
    assert Pow256(8) == 256 * Pow256(7);
  }

  lemma Truncated(v: nat)
    ensures Le(v, 8) == Le(v % UINT64_SIZE, 8)
  {
    WordSizes();
    LeRoundTrip(v, 8);
    LeUnique(Le(v, 8));
  }

  lemma PlaceholderReads(n: nat, tail: bytes)
    ensures ReadHeader(Placeholder(n) + tail).Some? && ReadHeader(Placeholder(n) + tail).value.indexOffset == 0
  {
    Truncated(n);
    assert Placeholder(n) == Placeholder(n % UINT64_SIZE);
    HeaderRoundTrip(Header(n % UINT64_SIZE, 0, 0, 0), tail);
  }

  lemma NoIndexAtStart(file: bytes)
    requires 8 <= |file| < UINT64_SIZE && file[..8] == MAGIC
    ensures ReadIndexAt(file, 0).None?
  {
    var count := LeValue(file[0..8]);
    assert file[0..8] == file[..8];
    MagicIsLarge(file[..8]);
    if ReadEntries(file[8..], count).Some? {
      EntriesNeedRoom(file[8..], count);
    }
  }

  /** A file that has the placeholder for its header, or only a part of that, does not open. */
  lemma PlaceholderNeverOpens(n: nat, file: bytes)
    requires |file| < UINT64_SIZE && (file <= Placeholder(n) || Placeholder(n) <= file)
    ensures OpenSpec(file).None?
  {
    if |file| >= HEADER_BYTES {
      var tail := file[HEADER_BYTES..];
      assert file == Placeholder(n) + tail;
      PlaceholderReads(n, tail);
      assert file[..8] == MAGIC;
      NoIndexAtStart(file);
    }
  }

  lemma LeftoverNeverOpens(n: nat, stream: bytes, fault: WriteFault, file: bytes)
    requires Placeholder(n) <= stream && file == Take(stream, Room(fault))
    ensures OpenSpec(file).None?
  {
    if |file| <= HEADER_BYTES {
      assert file <= Placeholder(n);
    } else {
      assert Placeholder(n) <= file;
    }
    PlaceholderNeverOpens(n, file);
  }
}
