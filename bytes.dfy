/** The byte cursor `Buf` the decoder reads keys and values through: a forward position
    (`head`) for head reads and skips, and a reverse position (`tail`) for reads and skips
    from the end. Integers are assembled big-endian, two's complement. */
module Bytes {
  import opened Results

  /** 256 to the power n. */
  function Pow256(n: nat): (r: nat)
    ensures r >= 1
  {
    if n == 0 then 1 else 256 * Pow256(n - 1)
  }

  /** The two's-complement big-endian number held by `bytes`: the leading bytes give a
      signed number, each later byte adds eight low bits. It lies in the signed range of
      that width, and it is negative exactly when the top bit is set. */
  function Signed(bytes: seq<bv8>): (r: int)
    requires |bytes| > 0
    ensures -128 * Pow256(|bytes| - 1) <= r < 128 * Pow256(|bytes| - 1)
    ensures r >= 0 <==> bytes[0] < 0x80
    decreases |bytes|
  {
    var last := bytes[|bytes| - 1] as int;
    if |bytes| == 1 then
      if last < 0x80 then last else last - 0x100
    else
      var init := bytes[..|bytes| - 1];
      assert init[0] == bytes[0];
      Signed(init) * 256 + last
  }

  /** The 4-byte int at position `p`. */
  function Int32At(data: seq<bv8>, p: nat): (r: int)
    requires p + 4 <= |data|
    ensures -0x8000_0000 <= r < 0x8000_0000
  {
    assert Pow256(3) == 0x100_0000;
    Signed(data[p..p + 4])
  }

  /** The 8-byte long at position `p`. */
  function Int64At(data: seq<bv8>, p: nat): (r: int)
    requires p + 8 <= |data|
    ensures -0x8000_0000_0000_0000 <= r < 0x8000_0000_0000_0000
  {
    assert Pow256(7) == 0x100_0000_0000_0000;
    Signed(data[p..p + 8])
  }

  /** A cursor over an immutable byte string. */
  class Buf {
    const data: seq<bv8>
    /** The host byte-order flag the cursor is built with. */
    const le: bool
    /** Next byte a forward read takes. */
    var head: nat
    /** One past the next byte a reverse read takes. */
    var tail: nat

    ghost predicate Valid()
      reads this
    {
      head <= |data| && tail <= |data|
    }

    constructor (data: seq<bv8>, le: bool)
      ensures Valid()
      ensures this.data == data && this.le == le
      ensures head == 0 && tail == |data|
    {
      this.data := data;
      this.le := le;
      head := 0;
      tail := |data|;
    }

    /** No byte is left for a forward read. */
    predicate IsEnd()
      reads this
    {
      head >= |data|
    }

    /** Advances the forward position by `n` bytes. */
    method Skip(n: nat) returns (r: Result<()>)
      requires Valid()
      modifies this
      ensures Valid() && tail == old(tail)
      ensures r.Ok? <==> old(head) + n <= |data|
      ensures head == if r.Ok? then old(head) + n else old(head)
    {
      if head + n <= |data| {
        head := head + n;
        r := Ok(());
      } else {
        r := Overrun;
      }
    }

    /** Reads a 4-byte int forward. */
    method ReadInt() returns (r: Result<int>)
      requires Valid()
      modifies this
      ensures Valid() && tail == old(tail)
      ensures r.Ok? <==> old(head) + 4 <= |data|
      ensures r.Ok? ==> r.value == Int32At(data, old(head)) && head == old(head) + 4
      ensures r.Overrun? ==> head == old(head)
    {
      if head + 4 <= |data| {
        r := Ok(Int32At(data, head));
        head := head + 4;
      } else {
        r := Overrun;
      }
    }

    /** Reads an 8-byte long forward. */
    method ReadLong() returns (r: Result<int>)
      requires Valid()
      modifies this
      ensures Valid() && tail == old(tail)
      ensures r.Ok? <==> old(head) + 8 <= |data|
      ensures r.Ok? ==> r.value == Int64At(data, old(head)) && head == old(head) + 8
      ensures r.Overrun? ==> head == old(head)
    {
      if head + 8 <= |data| {
        r := Ok(Int64At(data, head));
        head := head + 8;
      } else {
        r := Overrun;
      }
    }

    /** Reads one byte backwards from the tail. */
    method ReverseRead() returns (r: Result<bv8>)
      requires Valid()
      modifies this
      ensures Valid() && head == old(head)
      ensures r.Ok? <==> old(tail) >= 1
      ensures r.Ok? ==> r.value == data[old(tail) - 1] && tail == old(tail) - 1
      ensures r.Overrun? ==> tail == old(tail)
    {
      if tail >= 1 {
        r := Ok(data[tail - 1]);
        tail := tail - 1;
      } else {
        r := Overrun;
      }
    }

    /** Moves the reverse position back by `n` bytes. */
    method ReverseSkip(n: nat) returns (r: Result<()>)
      requires Valid()
      modifies this
      ensures Valid() && head == old(head)
      ensures r.Ok? <==> old(tail) >= n
      ensures tail == if r.Ok? then old(tail) - n else old(tail)
    {
      if tail >= n {
        tail := tail - n;
        r := Ok(());
      } else {
        r := Overrun;
      }
    }

    /** The byte a reverse read would take, without moving. */
    method ReversePeek() returns (r: Result<bv8>)
      requires Valid()
      ensures r.Ok? <==> tail >= 1
      ensures r.Ok? ==> r.value == data[tail - 1]
    {
      if tail >= 1 {
        r := Ok(data[tail - 1]);
      } else {
        r := Overrun;
      }
    }
  }
}
