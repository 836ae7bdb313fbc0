/** The on-disk records of the write-ahead journal (types.rs): superblock, data header,
    commit record, each padded with zeros to one block. */
module JournalFormat {
  import opened Blocks
  import opened ByteXor

  const JOURNAL_MAGIC: Word := 0x4A524E4C // "JRNL"
  const DATA_MAGIC: Word := 0x4A444154    // "JDAT"
  const COMMIT_MAGIC: Word := 0x4A434D54  // "JCMT"

  function Zeros(n: nat): (s: seq<Byte>) { seq(n, i => 0) }

  type LongWord = x: int | 0 <= x < 0x1_0000_0000_0000_0000

  function Low(v: LongWord): Word { v % 0x1_0000_0000 }
  function High(v: LongWord): Word { v / 0x1_0000_0000 }

  // ---------- checksums: the exclusive or of the little-endian words ----------

  /** Byte `k` of the exclusive or of the first `n` words of `data`. */
  function Lane(data: seq<Byte>, k: nat, n: nat): Byte
    requires k < 4 && 4 * n <= |data|
  {
    if n == 0 then 0 else XorByte(Lane(data, k, n - 1), data[4 * (n - 1) + k])
  }

  function Checksum(data: Block): Word {
    WordAt(seq(4, k requires 0 <= k < 4 => Lane(data, k, BLOCK_SIZE / 4)), 0)
  }

  // ---------- records ----------

  /** The in-memory journal superblock; `reserved` is carried along unread. */
  datatype JournalSuper = JournalSuper(version: Word, blockSize: Word, totalBlocks: Word,
                                       sequence: LongWord, head: Word, tail: Word, reserved: seq<Byte>)

  predicate WellSized(sb: JournalSuper) { |sb.reserved| == 4040 }

  function SuperWords(sb: JournalSuper): (ws: seq<Word>)
    ensures |ws| == 8
  {
    [JOURNAL_MAGIC, sb.version, sb.blockSize, sb.totalBlocks, Low(sb.sequence), High(sb.sequence), sb.head, sb.tail]
  }

  function SuperBlock(sb: JournalSuper): Block
    requires WellSized(sb)
  {
    Words(SuperWords(sb)) + (sb.reserved + Zeros(24))
  }

  function HeaderBlock(target: Word, data: Block): Block {
    Words([DATA_MAGIC, target, Checksum(data)]) + Zeros(BLOCK_SIZE - 12)
  }

  function CommitBlock(txnId: LongWord, numBlocks: Word): Block {
    Words([COMMIT_MAGIC, Low(txnId), High(txnId), numBlocks, Low(txnId)]) + Zeros(BLOCK_SIZE - 20)
  }

  function Magic(b: Block): Word { WordAt(b, 0) }
  function TargetOf(b: Block): Word { WordAt(b, 4) }

  function DecodeSuper(b: Block): (sb: JournalSuper)
    ensures WellSized(sb)
  {
    JournalSuper(WordAt(b, 4), WordAt(b, 8), WordAt(b, 12), WordAt(b, 16) + 0x1_0000_0000 * WordAt(b, 20) as int,
                 WordAt(b, 24), WordAt(b, 28), b[32..4072])
  }

  /** A data header: magic, target and checksum in its first twelve bytes, zeros behind. */
  lemma HeaderLayout(target: Word, data: Block)
    ensures var b := HeaderBlock(target, data);
            && WordAt(b, 0) == 0x4A444154 && WordAt(b, 4) == target && WordAt(b, 8) == Checksum(data)
            && forall i :: 12 <= i < BLOCK_SIZE ==> b[i] == 0
  {
    var ws, rest := [DATA_MAGIC, target, Checksum(data)], Zeros(BLOCK_SIZE - 12);
    WordsDecode(ws, 0, rest);
    WordsDecode(ws, 1, rest);
    WordsDecode(ws, 2, rest);
  }

  /** A commit record: magic, 64-bit id, number of blocks, and for a checksum the low half of the id once more. */
  lemma CommitLayout(txnId: LongWord, numBlocks: Word)
    ensures var b := CommitBlock(txnId, numBlocks);
            && WordAt(b, 0) == 0x4A434D54 && WordAt(b, 4) + 0x1_0000_0000 * WordAt(b, 8) as int == txnId
            && WordAt(b, 12) == numBlocks && WordAt(b, 16) == txnId % 0x1_0000_0000
            && forall i :: 20 <= i < BLOCK_SIZE ==> b[i] == 0
  {
    var ws, rest := [COMMIT_MAGIC, Low(txnId), High(txnId), numBlocks, Low(txnId)], Zeros(BLOCK_SIZE - 20);
    hide Words;
    WordsDecode(ws, 0, rest);
    WordsDecode(ws, 1, rest);
    WordsDecode(ws, 2, rest);
    WordsDecode(ws, 3, rest);
    WordsDecode(ws, 4, rest);
  }

  /** The superblock: where each field lies. */
  lemma SuperLayout(sb: JournalSuper)
    requires WellSized(sb)
    ensures var b := SuperBlock(sb);
            && WordAt(b, 0) == 0x4A524E4C && WordAt(b, 4) == sb.version && WordAt(b, 8) == sb.blockSize
            && WordAt(b, 12) == sb.totalBlocks
            && WordAt(b, 16) + 0x1_0000_0000 * WordAt(b, 20) as int == sb.sequence
            && WordAt(b, 24) == sb.head && WordAt(b, 28) == sb.tail && b[32..4072] == sb.reserved
            && forall i :: 4072 <= i < BLOCK_SIZE ==> b[i] == 0
  {
    hide Words;
    var b := SuperBlock(sb);
    SuperRoundTrip(sb);
    assert DecodeSuper(b) == sb;
    assert forall i :: 4072 <= i < BLOCK_SIZE ==> b[i] == Zeros(24)[i - 4072];
  }

  // ---------- what the checksum notices ----------

  /** Byte `k` of the checksum. */
  lemma ChecksumBytes(data: Block)
    ensures var w := Checksum(data);
            && w % 0x100 == Lane(data, 0, 1024) && w / 0x100 % 0x100 == Lane(data, 1, 1024)
            && w / 0x1_0000 % 0x100 == Lane(data, 2, 1024) && w / 0x100_0000 == Lane(data, 3, 1024)
  {
    hide Lane;
    WordDigits(seq(4, k requires 0 <= k < 4 => Lane(data, k, 1024)), 0);
  }

  lemma {:induction false} ZeroLane(k: nat, n: nat)
    requires k < 4 && n <= 1024
    ensures Lane(ZeroBlock(), k, n) == 0
  {
    if n > 0 {
      ZeroLane(k, n - 1);
      XorZero(0);
    }
  }

  /** Putting `v` in the place of a byte changes its lane by the difference of the two, and no other lane. */
  lemma {:induction false} LaneUpdate(data: Block, p: nat, v: Byte, k: nat, n: nat)
    requires p < BLOCK_SIZE && k < 4 && n <= 1024
    ensures Lane(data[p := v], k, n) ==
      if p % 4 == k && p / 4 < n then XorByte(Lane(data, k, n), XorByte(data[p], v)) else Lane(data, k, n)
  {
    hide XorByte;
    if n > 0 {
      LaneUpdate(data, p, v, k, n - 1);
      var was, old', b := Lane(data, k, n - 1), data[p], data[4 * (n - 1) + k];
      if p % 4 == k && p / 4 == n - 1 {
        assert p == 4 * (n - 1) + k;
        XorCancels(was, old', v);
      } else if p % 4 == k && p / 4 < n {
        XorShuffle(was, XorByte(old', v), b);
        XorShuffle(was, b, XorByte(old', v));
        XorShuffle(XorByte(old', v), b, 0);
      }
    }
  }

  /** The checksum of a block of zeros is zero, and a single changed byte never goes unnoticed. */
  lemma ChecksumNotices(data: Block, p: nat, v: Byte)
    requires p < BLOCK_SIZE
    ensures Checksum(ZeroBlock()) == 0
    ensures v != data[p] ==> Checksum(data[p := v]) != Checksum(data)
  {
    hide Lane, XorByte, Checksum;
    ChecksumBytes(ZeroBlock());
    forall k | 0 <= k < 4 ensures Lane(ZeroBlock(), k, 1024) == 0 { ZeroLane(k, 1024); }
    ChecksumBytes(data);
    ChecksumBytes(data[p := v]);
    LaneUpdate(data, p, v, p % 4, 1024);
    if v != data[p] { XorMoves(Lane(data, p % 4, 1024), data[p], v); }
  }

  lemma HeaderDecodes(target: Word, data: Block)
    ensures Magic(HeaderBlock(target, data)) == DATA_MAGIC
    ensures TargetOf(HeaderBlock(target, data)) == target
  {
    var ws := [DATA_MAGIC, target, Checksum(data)];
    WordsDecode(ws, 0, Zeros(BLOCK_SIZE - 12));
    WordsDecode(ws, 1, Zeros(BLOCK_SIZE - 12));
  }

  lemma CommitDecodes(txnId: LongWord, numBlocks: Word)
    ensures Magic(CommitBlock(txnId, numBlocks)) == COMMIT_MAGIC
  {
    WordsDecode([COMMIT_MAGIC, Low(txnId), High(txnId), numBlocks, Low(txnId)], 0, Zeros(BLOCK_SIZE - 20));
  }

  /** Writing the superblock and reading it back loses nothing. */
  lemma SuperRoundTrip(sb: JournalSuper)
    requires WellSized(sb)
    ensures Magic(SuperBlock(sb)) == JOURNAL_MAGIC && DecodeSuper(SuperBlock(sb)) == sb
  {
    var ws, rest := SuperWords(sb), sb.reserved + Zeros(24);
    forall i | 0 <= i < 8 ensures WordAt(Words(ws) + rest, 4 * i) == ws[i] {
      WordsDecode(ws, i, rest);
    }
    var b := SuperBlock(sb);
    assert WordAt(b, 4 * 0) == ws[0] && WordAt(b, 4 * 1) == ws[1];
    assert WordAt(b, 4 * 2) == ws[2] && WordAt(b, 4 * 3) == ws[3];
    assert WordAt(b, 4 * 4) == ws[4] && WordAt(b, 4 * 5) == ws[5];
    assert WordAt(b, 4 * 6) == ws[6] && WordAt(b, 4 * 7) == ws[7];
    assert b[32..4072] == sb.reserved;
  }
}
