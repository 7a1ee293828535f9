/** Fixed-width big-endian integers, as struct's "!" formats write them. */
module BigEndian {
  import opened Bytes

  function Range(width: nat): (m: nat)
    ensures m > 0
  {
    if width == 0 then 1 else 256 * Range(width - 1)
  }

  function Write(n: nat, width: nat): (b: Bytes)
    requires n < Range(width)
    ensures |b| == width
  {
    if width == 0 then []
    else Write(n / 256, width - 1) + [n % 256]
  }

  function Read(b: Bytes): (n: nat)
    ensures n < Range(|b|)
  {
    if b == [] then 0 else Read(b[..|b| - 1]) * 256 + b[|b| - 1]
  }

  lemma {:induction false} ReadWrite(n: nat, width: nat)
    requires n < Range(width)
    ensures Read(Write(n, width)) == n
  {
    if width > 0 {
      ReadWrite(n / 256, width - 1);
      assert Write(n, width)[..width - 1] == Write(n / 256, width - 1);
    }
  }

  lemma {:induction false} WriteRead(b: Bytes)
    ensures Write(Read(b), |b|) == b
  {
    if b != [] {
      var init, last := b[..|b| - 1], b[|b| - 1];
      WriteRead(init);
      Split(Read(init), last);
      WriteStep(Read(init), last, |init|);
      assert b == init + [last];
    }
  }

  lemma Split(a: nat, r: byte)
    ensures (a * 256 + r) / 256 == a && (a * 256 + r) % 256 == r
  {
  }

  lemma WriteStep(a: nat, r: byte, width: nat)
    requires a < Range(width)
    ensures a * 256 + r < Range(width + 1)
    ensures Write(a * 256 + r, width + 1) == Write(a, width) + [r]
  {
    Split(a, r);
  }

  const U32: nat := 0x1_0000_0000
  const U64: nat := 0x1_0000_0000_0000_0000
  const I64_MIN: int := -0x8000_0000_0000_0000

  lemma Ranges()
    ensures Range(1) == 256 && Range(2) == 65536 && Range(4) == U32 && Range(8) == U64
  {
    assert Range(2) == 256 * Range(1);
    assert Range(3) == 256 * Range(2);
    assert Range(4) == 256 * Range(3);
    assert Range(5) == 256 * Range(4);
    assert Range(6) == 256 * Range(5);
    assert Range(7) == 256 * Range(6);
  }

  predicate FitsI64(i: int) {
    I64_MIN <= i < -I64_MIN
  }

  /** "!q": two's complement. */
  function WriteI64(i: int): (b: Bytes)
    requires FitsI64(i)
    ensures |b| == 8
  {
    Ranges();
    Write(if i < 0 then i + U64 else i, 8)
  }

  function ReadI64(b: Bytes): (i: int)
    requires |b| == 8
    ensures FitsI64(i)
  {
    Ranges();
    var n := Read(b);
    if n < -I64_MIN then n else n - U64
  }

  lemma ReadWriteI64(i: int)
    requires FitsI64(i)
    ensures ReadI64(WriteI64(i)) == i
  {
    Ranges();
    ReadWrite(if i < 0 then i + U64 else i, 8);
  }

  lemma WriteReadI64(b: Bytes)
    requires |b| == 8
    ensures WriteI64(ReadI64(b)) == b
  {
    WriteRead(b);
    Ranges();
  }
}
