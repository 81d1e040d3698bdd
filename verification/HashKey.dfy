/** The hash key as an object: reservations first, then one allocation, then writes and reads at a
    moving offset. */
module HashKeys {
  import opened Octet
  import opened HashBytes
  import opened CompVals
  import opened CompRound

  class HashKey {
    var keySize: nat
    var key: array?<Byte>
    var writeSize: nat
    var readSize: nat
    /** The key has a buffer of its own, not only room for one fixed-size value. */
    var isAllocated: bool

    ghost predicate Valid()
      reads this, key
    {
      && (key != null ==> key.Length == keySize && writeSize <= keySize && readSize <= keySize)
      && (isAllocated ==> key != null)
    }

    /** What has been written so far. */
    ghost function Contents(): (r: seq<Byte>)
      reads this, key
      requires Valid() && key != null
      ensures |r| == writeSize
    {
      key[..writeSize]
    }

    constructor ()
      ensures Valid() && key == null && keySize == 0 && writeSize == 0 && readSize == 0
    {
      keySize, key, writeSize, readSize, isAllocated := 0, null, 0, 0, false;
    }

    method Reserve(size: nat, alignment: nat)
      requires key == null
      modifies this`keySize
      ensures keySize == AlignUp(old(keySize), alignment) + size
    {
      keySize := AlignUp(keySize, alignment) + size;
    }

    method Allocate()
      requires key == null
      modifies this`key, this`writeSize, this`readSize, this`isAllocated
      ensures Valid() && isAllocated && key != null && fresh(key) && writeSize == 0 && readSize == 0
    {
      key := new Byte[keySize];
      writeSize, readSize, isAllocated := 0, 0, true;
    }

    /** A key that holds one fixed-size value needs no allocation of its own. */
    method Set(data: seq<Byte>)
      requires key == null
      modifies this`key, this`keySize, this`writeSize, this`readSize, this`isAllocated
      ensures Valid() && !isAllocated && key != null && fresh(key) && keySize == writeSize == |data| && readSize == 0
      ensures Contents() == data
    {
      key := new Byte[|data|](i requires 0 <= i < |data| => data[i]);
      keySize, writeSize, readSize, isAllocated := |data|, |data|, 0, false;
    }

    /** A copy, as a dictionary keeps it: all the bytes, written or not, in a buffer of its own. */
    method Copy() returns (copy: HashKey)
      requires Valid() && key != null
      ensures fresh(copy) && copy.Valid() && copy.isAllocated && copy.key != null && fresh(copy.key)
      ensures copy.key[..] == key[..] && copy.keySize == copy.writeSize == keySize && copy.readSize == 0
    {
      copy := new HashKey();
      var bytes := key[..];
      copy.key := new Byte[keySize](i requires 0 <= i < |bytes| => bytes[i]);
      copy.keySize, copy.writeSize, copy.isAllocated := keySize, keySize, true;
    }

    method AlignWrite(alignment: nat)
      requires Valid() && key != null && AlignUp(writeSize, alignment) <= keySize
      modifies this`writeSize, key
      ensures Valid() && Contents() == Padded(old(Contents()), alignment)
    {
      if alignment == 0 {
        return;
      }
      var oldSize := writeSize;
      writeSize := AlignUp(writeSize, alignment);
      ghost var from := oldSize;
      while oldSize < writeSize
        modifies key
        invariant from <= oldSize <= writeSize
        invariant key[..from] == old(Contents()) && forall i :: from <= i < oldSize ==> key[i] == 0
      {
        key[oldSize] := 0;
        oldSize := oldSize + 1;
      }
    }

    /** An aligned write; the caller has reserved the space. */
    method Write(data: seq<Byte>, alignment: nat)
      requires Valid() && key != null && AlignUp(writeSize, alignment) + |data| <= keySize
      modifies this`writeSize, key
      ensures Valid() && Contents() == Padded(old(Contents()), alignment) + data
    {
      AlignWrite(alignment);
      ghost var padded := Contents();
      for i := 0 to |data|
        modifies key
        invariant key[..writeSize] == padded && key[writeSize..writeSize + i] == data[..i]
      {
        key[writeSize + i] := data[i];
      }
      assert key[..writeSize + |data|] == key[..writeSize] + key[writeSize..writeSize + |data|];
      assert data[..|data|] == data;
      writeSize := writeSize + |data|;
    }

    /** A write of the script; afterwards the buffer holds what the script says. */
    method Put(p: Put)
      requires Valid() && key != null && |After(Contents(), p)| <= keySize
      modifies this`writeSize, key
      ensures Valid() && Contents() == After(old(Contents()), p)
    {
      Write(p.data, p.align);
    }

    /** An aligned read; reading past the end, or from a key without a buffer of its own, is an internal
        error. */
    method Read(n: nat, alignment: nat) returns (r: Parsed<seq<Byte>>)
      requires Valid() && key != null
      modifies this`readSize
      ensures Valid() && r == if isAllocated || n == 0 then CompVals.Read(key[..], old(readSize), n, alignment)
              else Fail
      ensures r.Ok? ==> readSize == r.pos
    {
      var at := AlignUp(readSize, alignment);
      if n > 0 && !isAllocated {
        return Fail;
      }
      if at + n > keySize {
        return Fail;
      }
      readSize := at + n;
      r := Ok(key[at..at + n], at + n);
      assert key[..][at..at + n] == key[at..at + n];
    }

    method ReadSize() returns (r: Parsed<nat>)
      requires Valid() && key != null
      modifies this`readSize
      ensures Valid() && r == if isAllocated then CompVals.ReadSize(key[..], old(readSize)) else Fail
      ensures r.Ok? ==> readSize == r.pos
    {
      var w := Read(4, 4);
      r := if w.Fail? then Fail else Ok(Number(w.v), w.pos);
    }

    method ReadFlag() returns (r: Parsed<bool>)
      requires Valid() && key != null
      modifies this`readSize
      ensures Valid() && r == if isAllocated then CompVals.ReadFlag(key[..], old(readSize)) else Fail
      ensures r.Ok? ==> readSize == r.pos
    {
      var w := Read(1, 0);
      r := if w.Fail? then Fail else Ok(w.v != [0], w.pos);
    }
  }
}
