/** The device file that the block layer and the journal write through their own descriptors. */
module DiskFile {
  import opened Blocks
  import opened JournalRun

  class Disk {
    var blocks: seq<Block>
    /** Everything asked of the device so far, in order: a crash keeps part of it. */
    ghost var events: seq<Event>

    constructor (blocks: seq<Block>)
      ensures this.blocks == blocks && events == []
    {
      this.blocks, events := blocks, [];
    }

    method WriteBlock(b: Word, data: Block)
      requires b < |blocks|
      modifies this
      ensures blocks == old(blocks)[b := data]
      ensures events == old(events) + [Pwrite(Write(b, data))]
    {
      blocks := blocks[b := data];
      events := events + [Pwrite(Write(b, data))];
    }

    method Sync()
      modifies this`events
      ensures events == old(events) + [Fsync]
    {
      events := events + [Fsync];
    }
  }
}
