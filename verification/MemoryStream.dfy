/** The growable memory stream: a buffer of some capacity, the length of the file in it, and a
    cursor that may stand beyond the end. */
module MemoryStreams {
  import opened CArith

  /** The bytes of a stream after writing at a position that is not beyond its end. */
  function Overwrite(old': seq<Byte>, pos: nat, bytes: seq<Byte>): seq<Byte>
    requires pos <= |old'|
  {
    old'[..pos] + bytes + old'[Min(pos + |bytes|, |old'|)..]
  }

  /** Bytes written can be read back from the same position, and no other byte changed. */
  lemma OverwriteReadsBack(old': seq<Byte>, pos: nat, bytes: seq<Byte>)
    requires pos <= |old'|
    ensures var now := Overwrite(old', pos, bytes);
      && |now| == Max(|old'|, pos + |bytes|)
      && now[pos..pos + |bytes|] == bytes
      && (forall i :: 0 <= i < |old'| && !(pos <= i < pos + |bytes|) ==> now[i] == old'[i])
  {
  }

  /** The bytes of a stream after a write at its end, which is refused if it would reach 2^31 - 1. */
  function Emit(s: seq<Byte>, bytes: seq<Byte>): seq<Byte> {
    if |s| + |bytes| < INT_MAX then s + bytes else s
  }

  datatype Origin = SeekSet | SeekCur | SeekEnd

  class MemoryStream {
    const deleteMe: bool      // the stream owns its buffer, and may grow and be written
    var data: array<Byte>     // data; its length is data_length
    var fileLength: nat
    var currentPosition: nat

    ghost predicate Valid()
      reads this
    {
      fileLength <= data.Length <= INT_MAX && currentPosition <= INT_MAX
    }

    ghost function Contents(): (s: seq<Byte>)
      requires Valid()
      reads this, data
      ensures |s| == fileLength
    {
      data[..fileLength]
    }

    constructor Open()
      ensures Valid() && deleteMe && Contents() == [] && currentPosition == 0 && fresh(data)
    {
      deleteMe := true;
      data := new Byte[0];
      fileLength, currentPosition := 0, 0;
    }

    /** Wraps a user buffer, which is read only. */
    constructor Wrap(buffer: array<Byte>)
      requires 0 < buffer.Length <= INT_MAX
      ensures Valid() && !deleteMe && data == buffer && Contents() == buffer[..] && currentPosition == 0
    {
      deleteMe := false;
      data := buffer;
      fileLength, currentPosition := buffer.Length, 0;
    }

    /** FreeImage_ReadMemory: whole items are counted, but a short read still takes what is left. */
    method Read(buffer: array?<Byte>, size: Dword, count: Dword) returns (n: nat)
      requires Valid() && buffer != data
      requires buffer != null ==> size * count <= buffer.Length || fileLength - currentPosition <= buffer.Length
      modifies this`currentPosition
      modifies if buffer == null then {} else {buffer}
      ensures Valid() && Contents() == old(Contents())
      ensures var left := fileLength - old(currentPosition);
        if buffer == null || size * count == 0 || left <= 0 then
          n == 0 && currentPosition == old(currentPosition) && (buffer != null ==> buffer[..] == old(buffer[..]))
        else
          var taken := Min(size * count, left);
          && n == (if size * count <= left then count else left / size)
          && currentPosition == old(currentPosition) + taken && taken <= buffer.Length
          && buffer[..] == Contents()[old(currentPosition)..][..taken] + old(buffer[..])[taken..]
    {
      if buffer == null || size == 0 || count == 0 {
        return 0;
      }
      var remaining := fileLength - currentPosition;
      if remaining > 0 {
        ProductFits(size, count, remaining);
        if count <= remaining / size {
          CopyOut(buffer, size * count);
          return count;
        } else {
          CopyOut(buffer, remaining);
          return remaining / size;
        }
      }
      return 0;
    }

    /** Copies n bytes from the cursor to the start of a buffer, and moves the cursor. */
    method CopyOut(buffer: array<Byte>, n: nat)
      requires Valid() && buffer != data && currentPosition + n <= fileLength && n <= buffer.Length
      modifies this`currentPosition, buffer
      ensures Valid() && Contents() == old(Contents()) && currentPosition == old(currentPosition) + n
      ensures buffer[..] == Contents()[old(currentPosition)..][..n] + old(buffer[..])[n..]
    {
      forall i | 0 <= i < n {
        buffer[i] := data[currentPosition + i];
      }
      currentPosition := currentPosition + n;
    }

    /** realloc: a larger buffer with the old bytes at its start; the rest is not initialized. */
    method Reallocate(capacity: nat)
      requires Valid() && data.Length <= capacity <= INT_MAX
      modifies this`data
      ensures Valid() && fresh(data) && data.Length == capacity && Contents() == old(Contents())
    {
      var bigger := new Byte[capacity];
      forall i | 0 <= i < data.Length {
        bigger[i] := data[i];
      }
      data := bigger;
    }

    /** The growth loop: 4096 first, then doubling, then the maximum; refused at the maximum. */
    method Grow(end: nat) returns (ok: bool)
      requires Valid() && end <= INT_MAX
      modifies this`data
      ensures Valid() && Contents() == old(Contents()) && (data == old(data) || fresh(data))
      ensures ok == (end < INT_MAX) && (ok ==> end < data.Length)
    {
      while end >= data.Length
        invariant Valid() && Contents() == old(Contents()) && (data == old(data) || fresh(data))
        decreases INT_MAX - data.Length
      {
        var newLength;
        if data.Length >= 0x4000_0000 {
          if data.Length == INT_MAX {
            return false;
          }
          newLength := INT_MAX;
        } else if data.Length == 0 {
          newLength := 4096;
        } else {
          newLength := data.Length * 2;
        }
        Reallocate(newLength);
      }
      ok := true;
    }

    /** _MemoryWriteProc.  A write is accepted exactly if it ends before 2^31 - 1. */
    method WriteProc(buffer: seq<Byte>, size: Dword, count: Dword) returns (n: nat)
      requires Valid() && size * count == |buffer|
      modifies this`data, this`currentPosition, this`fileLength, data
      ensures Valid() && (data == old(data) || fresh(data))
      ensures old(currentPosition) + |buffer| >= INT_MAX ==>
                n == 0 && Contents() == old(Contents()) && currentPosition == old(currentPosition)
      ensures old(currentPosition) + |buffer| < INT_MAX ==>
                n == count && currentPosition == old(currentPosition) + |buffer|
      ensures old(currentPosition) + |buffer| < INT_MAX && old(currentPosition) <= old(fileLength) ==>
                Contents() == Overwrite(old(Contents()), old(currentPosition), buffer)
      ensures old(currentPosition) + |buffer| < INT_MAX && old(currentPosition) > old(fileLength) ==>
                fileLength == currentPosition && Contents()[..old(fileLength)] == old(Contents())
                && Contents()[old(currentPosition)..] == buffer
    {
      var required := size * count;
      if required > INT_MAX {
        return 0;
      }
      if required > INT_MAX - currentPosition {
        return 0;
      }
      var ok := Grow(currentPosition + required);
      if !ok {
        return 0;
      }
      CopyIn(buffer);
      return count;
    }

    /** Copies bytes to the cursor, and moves the cursor and the end of the file. */
    method CopyIn(bytes: seq<Byte>)
      requires Valid() && currentPosition + |bytes| < data.Length
      modifies this`currentPosition, this`fileLength, data
      ensures Valid() && currentPosition == old(currentPosition) + |bytes|
      ensures fileLength == Max(old(fileLength), currentPosition)
      ensures old(currentPosition) <= old(fileLength) ==>
                Contents() == Overwrite(old(Contents()), old(currentPosition), bytes)
      ensures old(currentPosition) > old(fileLength) ==>
                Contents()[..old(fileLength)] == old(Contents()) && Contents()[old(currentPosition)..] == bytes
    {
      forall i | 0 <= i < |bytes| {
        data[currentPosition + i] := bytes[i];
      }
      currentPosition := currentPosition + |bytes|;
      if currentPosition > fileLength {
        fileLength := currentPosition;
      }
    }

    /** FreeImage_WriteMemory: a wrapped user buffer is never written. */
    method Write(buffer: seq<Byte>, size: Dword, count: Dword) returns (n: nat)
      requires Valid() && size * count == |buffer|
      modifies this`data, this`currentPosition, this`fileLength, data
      ensures Valid() && (data == old(data) || fresh(data))
      ensures !deleteMe || old(currentPosition) + |buffer| >= INT_MAX ==>
                n == 0 && Contents() == old(Contents()) && currentPosition == old(currentPosition)
      ensures deleteMe && old(currentPosition) + |buffer| < INT_MAX ==>
                n == count && currentPosition == old(currentPosition) + |buffer|
      ensures deleteMe && old(currentPosition) + |buffer| < INT_MAX && old(currentPosition) <= old(fileLength) ==>
                Contents() == Overwrite(old(Contents()), old(currentPosition), buffer)
      ensures deleteMe && old(currentPosition) + |buffer| < INT_MAX && old(currentPosition) > old(fileLength) ==>
                fileLength == currentPosition && Contents()[..old(fileLength)] == old(Contents())
                && Contents()[old(currentPosition)..] == buffer
    {
      n := 0;
      if deleteMe {
        n := WriteProc(buffer, size, count);
      }
    }

    /** FreeImage_SeekMemory: any position an `int` can hold, also beyond the end. */
    method Seek(offset: int, origin: Origin) returns (ok: bool)
      requires Valid()
      modifies this`currentPosition
      ensures var base := match origin case SeekSet => 0 case SeekCur => old(currentPosition) case SeekEnd => fileLength;
        ok == (0 <= base + offset <= INT_MAX) && currentPosition == if ok then base + offset else old(currentPosition)
    {
      match origin {
        case SeekSet =>
          if 0 <= offset <= INT_MAX {
            currentPosition := offset;
            return true;
          }
        case SeekCur =>
          if 0 <= currentPosition + offset <= INT_MAX {
            currentPosition := currentPosition + offset;
            return true;
          }
        case SeekEnd =>
          if 0 <= fileLength + offset <= INT_MAX {
            currentPosition := fileLength + offset;
            return true;
          }
      }
      return false;
    }

    method Tell() returns (pos: nat)
      ensures pos == currentPosition
    {
      pos := currentPosition;
    }

    /** FreeImage_AcquireMemory: the buffer and the length of the file in it. */
    method Acquire() returns (buffer: array<Byte>, size: nat)
      requires Valid()
      ensures buffer == data && size == fileLength && buffer[..size] == Contents()
    {
      buffer, size := data, fileLength;
    }
  }
}
