/** Bytes, 32-bit little-endian words, 4096-byte blocks and block images of a device.
    Every layer of the file system moves whole blocks, so this is the common ground. */
module Blocks {

  const BLOCK_SIZE: nat := 4096

  type Byte = x: int | 0 <= x < 256
  type Word = x: int | 0 <= x < 0x1_0000_0000
  type Block = b: seq<Byte> | |b| == BLOCK_SIZE witness seq(BLOCK_SIZE, i => 0)

  function ZeroBlock(): (b: Block)
    ensures forall i :: 0 <= i < BLOCK_SIZE ==> b[i] == 0
  {
    seq(BLOCK_SIZE, i => 0)
  }

  // ---------- little-endian words ----------

  function Le32(v: Word): (s: seq<Byte>)
    ensures |s| == 4
  {
    [v % 256, v / 256 % 256, v / 65536 % 256, v / 16777216]
  }

  /** The word stored at byte offset `at`. */
  function WordAt(s: seq<Byte>, at: nat): Word
    requires at + 4 <= |s|
  {
    var a: int, b: int, c: int, e: int := s[at], s[at + 1], s[at + 2], s[at + 3];
    a + 256 * b + 65536 * c + 16777216 * e
  }

  /** The bytes of a packed record of words. */
  function Words(ws: seq<Word>): (s: seq<Byte>)
    ensures |s| == 4 * |ws|
  {
    if ws == [] then [] else Le32(ws[0]) + Words(ws[1..])
  }

  lemma WordRoundTrip(v: Word)
    ensures WordAt(Le32(v), 0) == v
  {
    assert v == 16777216 * (v / 16777216) + v % 16777216;
    assert v % 16777216 == 65536 * (v / 65536 % 256) + v % 65536;
    assert v % 65536 == 256 * (v / 256 % 256) + v % 256;
  }

  /** Least significant byte first. */
  lemma WordDigits(s: seq<Byte>, at: nat)
    requires at + 4 <= |s|
    ensures var w := WordAt(s, at);
            && w % 0x100 == s[at] && w / 0x100 % 0x100 == s[at + 1]
            && w / 0x1_0000 % 0x100 == s[at + 2] && w / 0x100_0000 == s[at + 3]
  {
    var a: int, b: int, c: int, e: int := s[at], s[at + 1], s[at + 2], s[at + 3];
    var w: int := WordAt(s, at);
    assert w == a + 0x100 * (b + 0x100 * (c + 0x100 * e));
    assert w / 0x100 == b + 0x100 * (c + 0x100 * e);
    assert w / 0x1_0000 == c + 0x100 * e;
  }

  /** Word `i` of a packed record is read back at byte offset `4 * i`, whatever follows. */
  lemma {:induction false} WordsDecode(ws: seq<Word>, i: nat, rest: seq<Byte>)
    requires i < |ws|
    ensures WordAt(Words(ws) + rest, 4 * i) == ws[i]
  {
    var s := Words(ws) + rest;
    if i == 0 {
      WordRoundTrip(ws[0]);
      assert forall k :: 0 <= k < 4 ==> s[k] == Le32(ws[0])[k];
    } else {
      WordsDecode(ws[1..], i - 1, rest);
      assert s[4..] == Words(ws[1..]) + rest;
      assert WordAt(s, 4 * i) == WordAt(s[4..], 4 * (i - 1));
    }
  }

  // ---------- block images ----------

  /** One block-sized write to the device. */
  datatype Write = Write(target: Word, data: Block)

  /** The image after one write; a write past the end of the device changes nothing. */
  function Put(d: seq<Block>, w: Write): (r: seq<Block>)
    ensures |r| == |d|
  {
    if w.target < |d| then d[w.target := w.data] else d
  }

  /** The image after a list of writes, applied first to last. */
  function Apply(d: seq<Block>, ws: seq<Write>): (r: seq<Block>)
    ensures |r| == |d|
  {
    if ws == [] then d else Put(Apply(d, ws[..|ws| - 1]), ws[|ws| - 1])
  }

  lemma ApplySnoc(d: seq<Block>, ws: seq<Write>, w: Write)
    ensures Apply(d, ws + [w]) == Put(Apply(d, ws), w)
  {
    assert (ws + [w])[..|ws|] == ws;
  }

  ghost predicate Touches(ws: seq<Write>, b: nat) {
    exists i :: 0 <= i < |ws| && ws[i].target == b
  }

  lemma {:induction false} ApplyConcat(d: seq<Block>, a: seq<Write>, b: seq<Write>)
    ensures Apply(d, a + b) == Apply(Apply(d, a), b)
  {
    if b == [] {
      assert a + b == a;
    } else {
      assert (a + b)[..|a + b| - 1] == a + b[..|b| - 1];
      ApplyConcat(d, a, b[..|b| - 1]);
    }
  }

  /** What a block holds after a list of writes depends on no other block. */
  lemma {:induction false} ApplyAt(d: seq<Block>, e: seq<Block>, ws: seq<Write>, b: nat)
    requires |d| == |e| && b < |d| && d[b] == e[b]
    ensures Apply(d, ws)[b] == Apply(e, ws)[b]
  {
    if ws != [] { ApplyAt(d, e, ws[..|ws| - 1], b); }
  }

  /** Blocks no write names keep their content. */
  lemma {:induction false} ApplyFrame(d: seq<Block>, ws: seq<Write>, b: nat)
    requires b < |d| && !Touches(ws, b)
    ensures Apply(d, ws)[b] == d[b]
  {
    if ws != [] {
      var front := ws[..|ws| - 1];
      assert forall i :: 0 <= i < |front| ==> front[i] == ws[i];
      ApplyFrame(d, front, b);
      assert ws[|ws| - 1].target != b;
    }
  }

  /** Last writer wins: the content of a block is the data of the last write naming it. */
  lemma {:induction false} ApplyLastWriter(d: seq<Block>, ws: seq<Write>, i: nat)
    requires i < |ws| && ws[i].target < |d|
    requires forall j :: i < j < |ws| ==> ws[j].target != ws[i].target
    ensures Apply(d, ws)[ws[i].target] == ws[i].data
  {
    if i < |ws| - 1 {
      ApplyLastWriter(d, ws[..|ws| - 1], i);
    }
  }

  ghost predicate AgreeOff(d: seq<Block>, e: seq<Block>, ws: seq<Write>) {
    |d| == |e| && forall b :: 0 <= b < |d| && !Touches(ws, b) ==> d[b] == e[b]
  }

  /** Replay forgets: two images that agree wherever the writes do not land become equal. */
  lemma {:induction false} ApplyForgets(d: seq<Block>, e: seq<Block>, ws: seq<Write>)
    requires AgreeOff(d, e, ws)
    ensures Apply(d, ws) == Apply(e, ws)
  {
    forall b | 0 <= b < |d| ensures Apply(d, ws)[b] == Apply(e, ws)[b] {
      if Touches(ws, b) {
        var i := LastTouch(ws, b);
        ApplyLastWriter(d, ws, i);
        ApplyLastWriter(e, ws, i);
      } else {
        ApplyFrame(d, ws, b);
        ApplyFrame(e, ws, b);
      }
    }
  }

  lemma {:induction false} LastTouch(ws: seq<Write>, b: nat) returns (i: nat)
    requires Touches(ws, b)
    ensures i < |ws| && ws[i].target == b
    ensures forall j :: i < j < |ws| ==> ws[j].target != b
  {
    var k := |ws| - 1;
    if ws[k].target == b {
      i := k;
    } else {
      var j :| 0 <= j < |ws| && ws[j].target == b;
      assert ws[..k][j].target == b;
      i := LastTouch(ws[..k], b);
    }
  }
}
