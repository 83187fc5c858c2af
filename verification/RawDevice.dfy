/**
  The child under the cache device: any block device that meets the GetN/PutN contract. It may fail
  at any call, refuses blocks it does not have, and a failed write may leave any mix of old and new blocks.
 */
module RawDevice {
  import opened Blkdev
  import opened Trace

  class RawDevice {
    const rec: Recorder
    var content: Image

    constructor (rec: Recorder, content: Image)
      ensures this.rec == rec && this.content == content
    {
      this.rec := rec;
      this.content := content;
    }

    method GetN(b: nat, n: nat) returns (ok: bool, out: seq<Block>)
      modifies rec
      ensures rec.events == old(rec.events) + [ChildRead(b, n)] && rec.outcomes == old(rec.outcomes) + [Device(ok)]
      ensures ok ==> Covers(content, b, n) && out == Slice(content, b, n)
    {
      rec.Log(ChildRead(b, n));
      ok, out := *, [];
      if exists k :: b <= k < b + n && k !in content {
        ok := false;
      }
      if ok {
        for i := 0 to n
          invariant out == Slice(content, b, i)
        {
          out := out + [content[b + i]];
        }
      }
      rec.Note(Device(ok));
    }

    method PutN(b: nat, blocks: seq<Block>) returns (ok: bool)
      modifies this`content, rec
      ensures rec.events == old(rec.events) + [ChildWrite(b, |blocks|)] && rec.outcomes == old(rec.outcomes) + [Device(ok)]
      ensures ok ==> Covers(old(content), b, |blocks|) && content == old(content) + BlocksOf(b, blocks)
      ensures !ok ==> Torn(old(content), content, b, blocks)
    {
      rec.Log(ChildWrite(b, |blocks|));
      ok := *;
      if exists k :: b <= k < b + |blocks| && k !in content {
        ok := false;
      }
      rec.Note(Device(ok));
      if ok {
        content := content + BlocksOf(b, blocks);
        return;
      }
      for i := 0 to |blocks|
        invariant Torn(old(content), content, b, blocks)
        modifies this`content
      {
        var reached: bool := *;
        if reached && b + i in content {
          content := content[b + i := blocks[i]];
        }
      }
    }
  }
}
