/** The growable byte buffer behind every connection. */
module StreamBuf {
  import opened Octets

  const GROWTH_FACTOR := 4

  class StreamBuf {
    var inUse: nat
    var buf: array<byte>

    constructor ()
      ensures Valid() && fresh(buf) && Contents() == []
    {
      inUse := 0;
      buf := new byte[0];
    }

    ghost predicate Valid()
      reads this
    {
      inUse <= buf.Length
    }

    // The byte queue that the buffer stands for.
    ghost function Contents(): seq<byte>
      requires Valid()
      reads this, buf
    {
      buf[..inUse]
    }

    function Size(): nat
      reads this
    {
      inUse
    }

    function Tailroom(): int
      reads this
    {
      buf.Length - inUse
    }

    method Reserve(newSize: nat)
      requires Valid()
      modifies this
      ensures Valid() && Contents() == old(Contents()) && inUse == old(inUse)
      ensures buf.Length == if newSize < old(buf.Length) then old(buf.Length) else newSize
      ensures buf == old(buf) || fresh(buf)
    {
      if newSize < buf.Length {
        return;
      }
      var larger := new byte[newSize](_ => 0);
      forall i | 0 <= i < buf.Length {
        larger[i] := buf[i];
      }
      assert larger[..inUse] == buf[..inUse];
      buf := larger;
    }

    method Ensure(extraCapacity: nat)
      requires Valid()
      modifies this
      ensures Valid() && Contents() == old(Contents()) && Tailroom() >= extraCapacity && inUse == old(inUse)
      ensures buf == old(buf) || fresh(buf)
    {
      Reserve(Size() + extraCapacity);
    }

    // Count octets already stored behind the contents.
    method AddTailContent(size: nat)
      requires Valid() && size <= Tailroom()
      modifies this
      ensures Valid() && buf == old(buf) && Contents() == old(buf[..inUse + size])
    {
      inUse := inUse + size;
    }

    method Clear()
      modifies this
      ensures Valid() && buf == old(buf) && Contents() == []
    {
      inUse := 0;
    }

    // Store octets in the room behind the contents and count them.
    method FillTail(data: seq<byte>)
      requires Valid() && |data| <= Tailroom()
      modifies this, buf
      ensures Valid() && buf == old(buf) && Contents() == old(Contents()) + data
    {
      forall i | 0 <= i < |data| {
        buf[inUse + i] := data[i];
      }
      assert buf[..inUse] == old(Contents());
      assert buf[..inUse + |data|] == buf[..inUse] + data;
      AddTailContent(|data|);
    }

    method Write(data: seq<byte>)
      requires Valid()
      modifies this, buf
      ensures Valid() && Contents() == old(Contents()) + data
      ensures buf == old(buf) || fresh(buf)
    {
      Ensure(|data|);
      FillTail(data);
    }

    // Returns false for the length error; nothing is taken then.
    method Advance(amount: nat) returns (ok: bool)
      requires Valid()
      modifies this, buf
      ensures Valid() && buf == old(buf) && ok == (amount <= |old(Contents())|)
      ensures Contents() == if ok then old(Contents())[amount..] else old(Contents())
    {
      if amount > Size() {
        return false;
      }
      if amount == Size() {
        Clear();
        return true;
      }
      inUse := inUse - amount;
      forall i | 0 <= i < inUse {
        buf[i] := buf[i + amount];
      }
      return true;
    }

    // Make more room: at least 1024 octets and at least as much as is in use, if and only if that is less than half of
    // the address space.
    method Grow()
      requires Valid()
      modifies this
      ensures Valid() && Contents() == old(Contents())
      ensures buf == old(buf) || fresh(buf)
      ensures inUse == old(inUse)
      ensures old(buf.Length) <= SIZE_MAX ==>
                && (Tailroom() >= 1024 && Tailroom() >= Size() <==> Size() <= SIZE_MAX / 2)
                && (Tailroom() == 0 <==> Size() == SIZE_MAX)
    {
      var newcap;
      if Size() < 4096 / GROWTH_FACTOR {
        newcap := 4096;
      } else if Size() > buf.Length / 2 {
        if buf.Length > SIZE_MAX / GROWTH_FACTOR {
          newcap := SIZE_MAX;
        } else {
          newcap := buf.Length * GROWTH_FACTOR;
        }
      } else {
        return;
      }
      Reserve(newcap);
    }

    // The first octets, as `data()` shows them.
    method Front(n: nat) returns (data: seq<byte>)
      requires Valid() && n <= Size()
      ensures data == Contents()[..n]
    {
      data := buf[..n];
    }
  }
}
