/** A byte queue held as a list of slices. */
module ByteQueue {
  type Byte = x: int | 0 <= x < 256
  type UInt = x: int | 0 <= x < 0x1_0000_0000

  function Flat(slices: seq<seq<Byte>>): seq<Byte> {
    if slices == [] then [] else slices[0] + Flat(slices[1..])
  }

  lemma {:induction false} FlatConcat(a: seq<seq<Byte>>, b: seq<seq<Byte>>)
    ensures Flat(a + b) == Flat(a) + Flat(b)
  {
    if a == [] {
      assert a + b == b;
    } else {
      assert (a + b)[1..] == a[1..] + b;
      FlatConcat(a[1..], b);
    }
  }

  /** How many bytes one slice of the given size contributes, in 32-bit arithmetic. */
  function CopyLength(size: UInt, length: UInt, offset: UInt): UInt {
    if offset >= size then 0
    else if (offset + length) % 0x1_0000_0000 > size then size - offset
    else length
  }

  /** The copy stays inside the slice exactly if offset plus length does not wrap around. */
  lemma CopyInsideExactlyWhen(size: UInt, length: UInt, offset: UInt)
    requires offset < size
    ensures offset + CopyLength(size, length, offset) <= size <==> offset + length < 0x1_0000_0000
  {
  }

  /** The part of a queue that a read may return. */
  function Window(q: seq<Byte>, offset: nat, length: nat): seq<Byte> {
    if offset >= |q| then [] else if offset + length >= |q| then q[offset..] else q[offset..offset + length]
  }

  /** The bytes that a walk over the slices copies. */
  function Gathered(slices: seq<seq<Byte>>, offset: UInt, length: UInt): seq<Byte>
    requires (forall s <- slices :: |s| < 0x1_0000_0000) && offset + length < 0x1_0000_0000
  {
    if length == 0 || slices == [] then []
    else
      var n := CopyLength(|slices[0]|, length, offset);
      Window(slices[0], offset, n) + Gathered(slices[1..], if n != 0 then 0 else offset - |slices[0]|, length - n)
  }

  lemma ReadPast(slice: seq<Byte>, rest: seq<Byte>, offset: nat, length: nat)
    requires offset >= |slice|
    ensures Window(slice + rest, offset, length) == Window(rest, offset - |slice|, length)
  {
  }

  lemma ReadAcross(slice: seq<Byte>, rest: seq<Byte>, offset: nat, length: nat)
    requires offset < |slice| < offset + length
    ensures Window(slice + rest, offset, length) == slice[offset..] + Window(rest, 0, length - (|slice| - offset))
  {
    var q, k := slice + rest, |slice| - offset;
    assert q[offset..] == slice[offset..] + rest;
    if offset + length < |q| {
      assert q[offset..offset + length] == q[offset..][..length];
    }
  }

  lemma ReadInside(slice: seq<Byte>, rest: seq<Byte>, offset: nat, length: nat)
    requires offset < |slice| && offset + length <= |slice|
    ensures Window(slice + rest, offset, length) == slice[offset..offset + length]
  {
  }

  /** What the first slice contributes, and what remains to be read after it. */
  lemma ReadStep(slice: seq<Byte>, rest: seq<Byte>, offset: UInt, length: UInt)
    requires |slice| < 0x1_0000_0000 && 0 < length && offset + length < 0x1_0000_0000
    ensures var n := CopyLength(|slice|, length, offset);
            && n <= length && (n == 0 ==> offset >= |slice|)
            && Window(slice, offset, n) + Window(rest, if n != 0 then 0 else offset - |slice|, length - n)
               == Window(slice + rest, offset, length)
  {
    var n := CopyLength(|slice|, length, offset);
    if offset >= |slice| {
      ReadPast(slice, rest, offset, length);
      assert Window(slice, offset, 0) == [];
    } else if offset + length <= |slice| {
      ReadInside(slice, rest, offset, length);
      assert Window(rest, 0, 0) == [];
      assert Window(slice, offset, n) == slice[offset..offset + n];
    } else {
      ReadAcross(slice, rest, offset, length);
      assert Window(slice, offset, n) == slice[offset..];
    }
  }

  /** The walk reads exactly the window, wherever the slices are cut. */
  lemma {:induction false} GatheredIsWindow(slices: seq<seq<Byte>>, offset: UInt, length: UInt)
    requires (forall s <- slices :: |s| < 0x1_0000_0000) && offset + length < 0x1_0000_0000
    ensures Gathered(slices, offset, length) == Window(Flat(slices), offset, length)
    decreases |slices|
  {
    if length > 0 && slices != [] {
      var slice, rest, n := slices[0], slices[1..], CopyLength(|slices[0]|, length, offset);
      ReadStep(slice, Flat(rest), offset, length);
      GatheredIsWindow(rest, if n != 0 then 0 else offset - |slice|, length - n);
      hide Window, CopyLength;
    }
  }

  class ByteArrayBuffer {
    var dataLength: nat
    var dataList: seq<seq<Byte>>
    ghost var pushed: seq<Byte>
    ghost var removed: seq<Byte>

    ghost function Contents(): seq<Byte>
      reads this
    {
      Flat(dataList)
    }

    /** The length is that of the contents, and the bytes pushed are those removed and then the
        contents, in order. Slices are arrays of less than 2^32 bytes. */
    ghost predicate Valid()
      reads this
    {
      && dataLength == |Contents()| && pushed == removed + Contents()
      && forall s <- dataList :: |s| < 0x1_0000_0000
    }

    constructor ()
      ensures Valid() && Contents() == [] && pushed == []
    {
      dataLength, dataList, pushed, removed := 0, [], [], [];
    }

    method Push(bytes: seq<Byte>)
      requires Valid() && |bytes| < 0x1_0000_0000
      modifies this
      ensures Valid() && Contents() == old(Contents()) + bytes
      ensures pushed == old(pushed) + bytes && removed == old(removed)
    {
      FlatConcat(dataList, [bytes]);
      assert [bytes][1..] == [];
      assert Flat([bytes]) == bytes + Flat([bytes][1..]);
      dataList := dataList + [bytes];
      dataLength := dataLength + |bytes|;
      pushed := pushed + bytes;
      assert Contents() == old(Contents()) + bytes;
    }

    /** Copies the bytes of one slice, from `offset` on, to the buffer from `at` on. */
    static method CopyDataToBuffer(slice: seq<Byte>, buffer: array<Byte>, at: nat, length: UInt, offset: UInt) returns (n: UInt)
      requires |slice| < 0x1_0000_0000 && at + length <= buffer.Length && offset + length < 0x1_0000_0000
      modifies buffer
      ensures n == CopyLength(|slice|, length, offset) && n == |Window(slice, offset, n)| && n <= length
      ensures n == 0 < length ==> offset >= |slice|
      ensures buffer[..] == old(buffer[..])[..at] + Window(slice, offset, n) + old(buffer[..])[at + n..]
    {
      if offset >= |slice| {
        assert buffer[..] == buffer[..at] + buffer[at..];
        return 0;
      }
      n := length;
      if offset + length > |slice| {
        n := |slice| - offset;
      }
      forall i | 0 <= i < n {
        buffer[at + i] := slice[offset + i];
      }
      assert Window(slice, offset, n) == slice[offset..offset + n];
    }

    /** The loop over the slices. */
    static method CopySlices(slices: seq<seq<Byte>>, buffer: array<Byte>, length: UInt, offset: UInt) returns (copied: UInt)
      requires (forall s <- slices :: |s| < 0x1_0000_0000) && length <= buffer.Length && offset + length < 0x1_0000_0000
      modifies buffer
      ensures copied <= length && copied == |Gathered(slices, offset, length)|
      ensures buffer[..] == Gathered(slices, offset, length) + old(buffer[..])[copied..]
    {
      hide Flat, Window, CopyLength;
      copied := 0;
      var i, offs: UInt := 0, offset;
      ghost var was, total := buffer[..], Gathered(slices, offset, length);
      assert slices[0..] == slices && was[0..] == was && [] + total == total;
      while copied < length && i < |slices|
        invariant 0 <= i <= |slices| && copied <= length && offs + (length - copied) < 0x1_0000_0000
        invariant total == buffer[..copied] + Gathered(slices[i..], offs, length - copied)
        invariant buffer[copied..] == was[copied..]
        decreases |slices| - i
      {
        var slice := slices[i];
        ghost var rest, before := slices[i + 1..], buffer[..];
        assert slices[i..][1..] == rest;
        var n := CopyDataToBuffer(slice, buffer, copied, length - copied, offs);
        ghost var w := Window(slice, offs, n);
        TwoParts(before, w, buffer[..], copied, n);
        ghost var more := Gathered(rest, if n != 0 then 0 else offs - |slice|, length - copied - n);
        assert Gathered(slices[i..], offs, length - copied) == w + more;
        Associative(before[..copied], w, more);
        if n != 0 {
          copied := copied + n;
          offs := 0;
        } else {
          offs := offs - |slice|;
        }
        i := i + 1;
      }
      assert buffer[..] == buffer[..copied] + buffer[copied..];
      assert buffer[..copied] + [] == buffer[..copied];
    }

    method GetBytesToBuffer(buffer: array<Byte>, length: UInt, offset: UInt) returns (copied: UInt)
      requires Valid() && length <= buffer.Length && offset + length < 0x1_0000_0000
      modifies buffer
      ensures Valid() && Contents() == old(Contents())
      ensures copied <= length && copied == |Window(Contents(), offset, length)|
      ensures buffer[..] == Window(Contents(), offset, length) + old(buffer[..])[copied..]
    {
      GatheredIsWindow(dataList, offset, length);
      copied := CopySlices(dataList, buffer, length, offset);
    }

    method Drop(n: UInt) returns (dropped: UInt)
      requires Valid() && n <= dataLength
      modifies this
      ensures Valid() && dropped == n
      ensures Contents() == old(Contents())[n..] && pushed == old(pushed)
      ensures removed == old(removed) + old(Contents())[..n]
    {
      var length := n;
      ghost var q := Contents();
      while length > 0
        invariant 0 <= length <= n && n - length + dataLength == |q|
        invariant Flat(dataList) == q[n - length..]
        invariant pushed == old(pushed) && removed == old(removed)
        invariant forall s <- dataList :: |s| < 0x1_0000_0000
        decreases length, |dataList|
      {
        var first, rest := dataList[0], dataList[1..];
        DropFront(first, Flat(rest), q, n - length, if |first| <= length then |first| else length);
        if |first| <= length {
          dataList := rest;
          dataLength := dataLength - |first|;
          length := length - |first|;
        } else {
          dataList := [first[length..]] + rest;
          assert dataList[1..] == rest;
          dataLength := dataLength - length;
          length := 0;
        }
      }
      removed := removed + q[..n];
      assert q[..n] + q[n..] == q;
      dropped := n;
    }

    method PopBytesToBuffer(buffer: array<Byte>, length: UInt) returns (n: UInt)
      requires Valid() && length <= buffer.Length
      modifies this, buffer
      ensures Valid() && n == |Window(old(Contents()), 0, length)|
      ensures buffer[..] == old(Contents())[..n] + old(buffer[..])[n..]
      ensures Contents() == old(Contents())[n..] && pushed == old(pushed)
      ensures removed == old(removed) + old(Contents())[..n]
    {
      n := GetBytesToBuffer(buffer, length, 0);
      var _ := Drop(n);
    }

    method Clear()
      requires Valid()
      modifies this
      ensures Valid() && Contents() == [] && pushed == old(pushed) && removed == old(pushed)
    {
      dataLength := 0;
      while dataList != []
        invariant dataLength == 0 && pushed == old(pushed)
        decreases |dataList|
      {
        dataList := dataList[1..];
      }
      removed := pushed;
    }
  }

  lemma Associative(a: seq<Byte>, b: seq<Byte>, c: seq<Byte>)
    ensures a + (b + c) == (a + b) + c
  {
  }

  lemma DropFront(first: seq<Byte>, rest: seq<Byte>, q: seq<Byte>, at: nat, k: nat)
    requires at <= |q| && q[at..] == first + rest && k <= |first|
    ensures at + k <= |q| && q[at + k..] == first[k..] + rest
    ensures k == |first| ==> q[at + k..] == rest
  {
    assert q[at + k..] == q[at..][k..];
  }

  lemma TwoParts(before: seq<Byte>, w: seq<Byte>, after: seq<Byte>, at: nat, n: nat)
    requires at + n <= |before| && |w| == n && after == before[..at] + w + before[at + n..]
    ensures after[..at + n] == before[..at] + w && after[at + n..] == before[at..][n..]
  {
  }
}
