/** CSocketStream of src/SocketStream.cpp: two bounded byte buffers with a cursor each. Integers
    travel with their bytes reversed between the wire and little-endian memory. */
module SocketStreams {
  import opened Nodes
  import opened Wire

  const MAXDATA := 1024 * 1024

  datatype Whence = SeekSet | SeekCur | SeekEnd

  /** What is left of d when only `room` bytes can be stored. */
  function Fit(d: Bytes, room: nat): (r: Bytes)
    ensures |r| == if |d| <= room then |d| else room
  {
    if |d| <= room then d else d[..room]
  }

  /** s with d stored from index i on; s grows when d reaches past its end. */
  function Overwrite(s: Bytes, i: nat, d: Bytes): (r: Bytes)
    requires i <= |s|
    ensures |r| == if i + |d| <= |s| then |s| else i + |d|
    ensures forall k :: 0 <= k < |r| ==> r[k] == if i <= k < i + |d| then d[k - i] else s[k]
  {
    if i + |d| <= |s| then s[..i] + d + s[i + |d|..] else s[..i] + d
  }

  /** Writing in two pieces is writing at once, also where the buffer cuts them off. */
  lemma FitInPieces(s: Bytes, a: Bytes, b: Bytes)
    ensures Fit(Fit(s + a, MAXDATA) + b, MAXDATA) == Fit(s + (a + b), MAXDATA)
  {
    assert s + a + b == s + (a + b);
  }

  lemma OverwrittenPrefix(whole: Bytes, size: nat, i: nat, d: Bytes)
    requires i + |d| <= |whole| && size <= |whole|
    ensures i <= size ==>
              Overwrite(whole, i, d)[..if i + |d| > size then i + |d| else size] == Overwrite(whole[..size], i, d)
  {
  }

  lemma AppendedWithin(s: Bytes, d: Bytes)
    requires |s| <= MAXDATA
    ensures Overwrite(s, |s|, Fit(d, MAXDATA - |s|)) == Fit(s + d, MAXDATA)
  {
  }

  /** Memory that holds s from its last byte down holds the value s has on the wire. */
  lemma ReversedMemory(memory: Bytes, s: Bytes)
    requires forall i :: 0 <= i < |s| && i < |memory| ==> memory[|memory| - 1 - i] == s[i]
    ensures |memory| == |s| ==> LittleValue(memory) == BigValue(s)
  {
    if |memory| == |s| {
      assert memory == Reverse(s);
      ReversedValue(s);
    }
  }

  class SocketStream {
    const inBuffer: array<Byte>
    const outBuffer: array<Byte>
    var inIndex: U32
    var inSize: U32
    var outIndex: U32
    var outSize: U32

    ghost predicate Valid()
      reads this
    {
      && inBuffer.Length == outBuffer.Length == MAXDATA && inBuffer != outBuffer
      && inIndex <= inSize <= MAXDATA
      && outSize <= MAXDATA
    }

    /** The input not read yet. */
    ghost function Rest(): Bytes
      requires Valid()
      reads this, inBuffer
    {
      inBuffer[inIndex..inSize]
    }

    /** The output GetOutput and GetOutputSize describe. */
    ghost function Output(): (s: Bytes)
      requires Valid()
      reads this, outBuffer
      ensures |s| == outSize
    {
      outBuffer[..outSize]
    }

    /** The next write appends. */
    ghost predicate AtEnd()
      reads this
    {
      outIndex == outSize
    }

    constructor ()
      ensures Valid() && AtEnd() && Rest() == [] && Output() == []
      ensures fresh(inBuffer) && fresh(outBuffer)
    {
      inBuffer := new Byte[MAXDATA];
      outBuffer := new Byte[MAXDATA];
      inIndex, inSize, outIndex, outSize := 0, 0, 0, 0;
    }

    /** The start of the input, after size bytes were received into the input buffer. */
    method SetInputSize(size: U32)
      requires Valid() && size <= MAXDATA
      modifies this`inIndex, this`inSize
      ensures Valid() && Rest() == inBuffer[..size]
    {
      inIndex := 0;
      inSize := size;
    }

    /** Copies as many of the n bytes as the input still has. */
    method Read(data: array<Byte>, n: U32) returns (got: U32)
      requires Valid() && n <= data.Length && data != inBuffer && data != outBuffer
      modifies this`inIndex, data
      ensures Valid()
      ensures got == if n <= |old(Rest())| then n else |old(Rest())|
      ensures Rest() == old(Rest())[got..]
      ensures data[..got] == old(Rest())[..got] && data[got..] == old(data[got..])
    {
      got := n;
      if got > inSize - inIndex {
        got := inSize - inIndex;
      }
      ghost var s := inBuffer[inIndex..inIndex + got];
      forall i | 0 <= i < got {
        data[i] := inBuffer[inIndex + i];
      }
      assert data[..got] == s;
      inIndex := inIndex + got;
    }

    /** Read(unsigned long *) for four bytes and Read8 for eight: the bytes read go to the variable
        in reverse order, from its last byte down; the others keep their old values. */
    method ReadReversed(p: array<Byte>) returns (n: U32)
      requires Valid() && p.Length < MAXDATA && p != inBuffer && p != outBuffer
      modifies this`inIndex, p
      ensures Valid()
      ensures n == if p.Length <= |old(Rest())| then p.Length else |old(Rest())|
      ensures Rest() == old(Rest())[n..]
      ensures forall i :: 0 <= i < n ==> p[p.Length - 1 - i] == old(Rest())[i]
      ensures forall i :: 0 <= i < p.Length - n ==> p[i] == old(p[i])
      ensures n == p.Length ==> LittleValue(p[..]) == BigValue(old(Rest())[..n])
    {
      var buffer := new Byte[p.Length];
      n := Read(buffer, p.Length);
      var i := 0;
      while i < n
        invariant 0 <= i <= n <= p.Length
        invariant forall k :: 0 <= k < i ==> p[p.Length - 1 - k] == buffer[k]
        invariant forall k :: 0 <= k < p.Length - i ==> p[k] == old(p[k])
        modifies p
      {
        p[p.Length - 1 - i] := buffer[i];
        i := i + 1;
      }
      ghost var s := old(Rest())[..n];
      assert buffer[..n] == s;
      assert forall k :: 0 <= k < n ==> buffer[..n][k] == s[k];
      ReversedMemory(p[..], s);
    }

    /** Read(unsigned long *) into a variable nobody has set: after a short read its value is
        unknown. */
    method ReadWord() returns (n: U32, value: U32)
      requires Valid()
      modifies this`inIndex
      ensures Valid()
      ensures n == if 4 <= |old(Rest())| then 4 else |old(Rest())|
      ensures Rest() == old(Rest())[n..]
      ensures n == 4 ==> DecU32(old(Rest())) == Got(value, Rest())
    {
      var p := new Byte[4];
      n := ReadReversed(p);
      Powers();
      LittleValueBound(p[..]);
      value := LittleValue(p[..]);
    }

    method Read8() returns (n: U32, value: U64)
      requires Valid()
      modifies this`inIndex
      ensures Valid()
      ensures n == if 8 <= |old(Rest())| then 8 else |old(Rest())|
      ensures Rest() == old(Rest())[n..]
      ensures n == 8 ==> DecU64(old(Rest())) == Got(value, Rest())
    {
      var p := new Byte[8];
      n := ReadReversed(p);
      Powers();
      LittleValueBound(p[..]);
      value := LittleValue(p[..]);
    }

    method Skip(n: U32) returns (got: U32)
      requires Valid()
      modifies this`inIndex
      ensures Valid()
      ensures got == if n <= |old(Rest())| then n else |old(Rest())|
      ensures Rest() == old(Rest())[got..]
    {
      got := n;
      if got > inSize - inIndex {
        got := inSize - inIndex;
      }
      inIndex := inIndex + got;
    }

    method GetSize() returns (n: U32)
      requires Valid()
      ensures n == |Rest()|
    {
      n := inSize - inIndex;
    }

    /** Stores data at the cursor, cut off where the buffer ends. The sum of cursor and size must
        not wrap: it is compared with the buffer size in 32 bits. */
    method Write(data: Bytes)
      requires Valid() && outIndex <= MAXDATA && outIndex + |data| < 0x1_0000_0000
      modifies this`outIndex, this`outSize, outBuffer
      ensures Valid()
      ensures outIndex == old(outIndex) + |Fit(data, MAXDATA - old(outIndex))|
      ensures outSize == if outIndex > old(outSize) then outIndex else old(outSize)
      ensures outBuffer[..] == Overwrite(old(outBuffer[..]), old(outIndex), Fit(data, MAXDATA - old(outIndex)))
      ensures old(outIndex) <= old(outSize) ==>
                Output() == Overwrite(old(Output()), old(outIndex), Fit(data, MAXDATA - old(outIndex)))
      ensures old(AtEnd()) ==> AtEnd() && Output() == Fit(old(Output()) + data, MAXDATA)
    {
      ghost var whole := outBuffer[..];
      var n := |data|;
      if (outIndex + n) % 0x1_0000_0000 > MAXDATA {
        n := MAXDATA - outIndex;
      }
      assert data[..n] == Fit(data, MAXDATA - outIndex);
      forall i | 0 <= i < n {
        outBuffer[outIndex + i] := data[i];
      }
      assert outBuffer[..] == Overwrite(whole, outIndex, data[..n]);
      outIndex := outIndex + n;
      if outIndex > outSize {
        outSize := outIndex;
      }
      OverwrittenPrefix(whole, old(outSize), old(outIndex), data[..n]);
      AppendedWithin(old(Output()), data);
    }

    /** Write(unsigned long) for four bytes and Write8 for eight: p holds the value as memory does. */
    method WriteReversed(p: array<Byte>)
      requires Valid() && outIndex <= MAXDATA && p.Length < MAXDATA
      modifies this`outIndex, this`outSize, outBuffer
      ensures Valid()
      ensures outIndex == old(outIndex) + |Fit(Reverse(old(p[..])), MAXDATA - old(outIndex))|
      ensures outSize == if outIndex > old(outSize) then outIndex else old(outSize)
      ensures old(outIndex) <= old(outSize) ==>
                Output() == Overwrite(old(Output()), old(outIndex), Fit(Reverse(old(p[..])), MAXDATA - old(outIndex)))
      ensures old(AtEnd()) ==> AtEnd() && Output() == Fit(old(Output()) + Reverse(old(p[..])), MAXDATA)
    {
      var n := p.Length;
      var buffer := new Byte[n];
      var i := n - 1;
      while i >= 0
        invariant -1 <= i < n
        invariant forall k :: i < k < n ==> buffer[k] == p[n - 1 - k]
        modifies buffer
      {
        buffer[i] := p[n - 1 - i];
        i := i - 1;
      }
      assert buffer[..] == Reverse(old(p[..]));
      Write(buffer[..]);
    }

    method WriteWord(value: U32)
      requires Valid() && outIndex <= MAXDATA
      modifies this`outIndex, this`outSize, outBuffer
      ensures Valid()
      ensures outIndex == old(outIndex) + |Fit(EncU32(value), MAXDATA - old(outIndex))|
      ensures outSize == if outIndex > old(outSize) then outIndex else old(outSize)
      ensures old(outIndex) <= old(outSize) ==>
                Output() == Overwrite(old(Output()), old(outIndex), Fit(EncU32(value), MAXDATA - old(outIndex)))
      ensures old(AtEnd()) ==> AtEnd() && Output() == Fit(old(Output()) + EncU32(value), MAXDATA)
    {
      var memory := LittleEndian(value, 4);
      var p := new Byte[4](i requires 0 <= i < 4 => memory[i]);
      assert p[..] == memory;
      ReversedEncoding(value, 4);
      WriteReversed(p);
    }

    method Write8(value: U64)
      requires Valid() && outIndex <= MAXDATA
      modifies this`outIndex, this`outSize, outBuffer
      ensures Valid()
      ensures outIndex == old(outIndex) + |Fit(EncU64(value), MAXDATA - old(outIndex))|
      ensures outSize == if outIndex > old(outSize) then outIndex else old(outSize)
      ensures old(outIndex) <= old(outSize) ==>
                Output() == Overwrite(old(Output()), old(outIndex), Fit(EncU64(value), MAXDATA - old(outIndex)))
      ensures old(AtEnd()) ==> AtEnd() && Output() == Fit(old(Output()) + EncU64(value), MAXDATA)
    {
      var memory := LittleEndian(value, 8);
      var p := new Byte[8](i requires 0 <= i < 8 => memory[i]);
      assert p[..] == memory;
      ReversedEncoding(value, 8);
      WriteReversed(p);
    }

    /** The cursor is 32 bits wide and Seek checks nothing. */
    method Seek(offset: int, from: Whence)
      modifies this`outIndex
      ensures outIndex == (offset + match from case SeekSet => 0 case SeekCur => old(outIndex) case SeekEnd => outSize)
                          % 0x1_0000_0000
    {
      if from == SeekSet {
        outIndex := offset % 0x1_0000_0000;
      } else if from == SeekCur {
        outIndex := (outIndex + offset) % 0x1_0000_0000;
      } else {
        outIndex := (outSize + offset) % 0x1_0000_0000;
      }
    }

    method GetPosition() returns (n: U32)
      ensures n == outIndex
    {
      n := outIndex;
    }

    method Reset()
      requires Valid()
      modifies this`outIndex, this`outSize
      ensures Valid() && AtEnd() && Output() == []
    {
      outIndex, outSize := 0, 0;
    }
  }
}
