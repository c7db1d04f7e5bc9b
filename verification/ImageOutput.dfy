/** The buffered byte sink of the image writers: 64 bytes are collected before they are handed on. */
module ImageOutput {
  import opened Inflate

  class ImageWriter {
    /** What has been handed on. */
    var sent: seq<Byte>
    var buffer: array<Byte>
    var bufUsed: nat

    ghost predicate Valid()
      reads this
    {
      buffer.Length == 64 && bufUsed <= 64
    }

    /** All bytes written, handed on or not. */
    ghost function Contents(): seq<Byte>
      requires Valid()
      reads this, buffer
    {
      sent + buffer[..bufUsed]
    }

    constructor ()
      ensures Valid() && Contents() == [] && bufUsed == 0 && fresh(buffer)
    {
      sent := [];
      buffer := new Byte[64](_ => 0);
      bufUsed := 0;
    }

    method Flush()
      requires Valid()
      modifies this`sent, this`bufUsed
      ensures Valid() && bufUsed == 0 && Contents() == old(Contents()) == sent
    {
      if bufUsed > 0 {
        sent := sent + buffer[..bufUsed];
        bufUsed := 0;
      }
    }

    /** Hands a byte on at once; the buffer has to be empty for the order to be kept. */
    method Putc(c: Byte)
      requires Valid() && bufUsed == 0
      modifies this`sent
      ensures Valid() && bufUsed == 0 && Contents() == old(Contents()) + [c]
    {
      sent := sent + [c];
    }

    method Write1(a: Byte)
      requires Valid()
      modifies this`sent, this`bufUsed, buffer
      ensures Valid() && Contents() == old(Contents()) + [a]
    {
      if bufUsed + 1 > 64 { Flush(); }
      ghost var before := buffer[..bufUsed];
      buffer[bufUsed] := a;
      bufUsed := bufUsed + 1;
      assert buffer[..bufUsed] == before + [a];
    }

    method Write3(a: Byte, b: Byte, c: Byte)
      requires Valid()
      modifies this`sent, this`bufUsed, buffer
      ensures Valid() && Contents() == old(Contents()) + [a, b, c]
    {
      if bufUsed + 3 > 64 { Flush(); }
      ghost var before := buffer[..bufUsed];
      var n := bufUsed;
      bufUsed := n + 3;
      buffer[n] := a;
      buffer[n + 1] := b;
      buffer[n + 2] := c;
      assert buffer[..bufUsed] == before + [a, b, c];
    }
  }
}
