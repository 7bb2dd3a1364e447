/**
 * The word-at-a-time search for an H.264 start code. A pointer is an index into the buffer; what the
 * hardware adds is kept as parameters: the buffer's alignment modulo 4 and the machine's byte order.
 */
module StartCode {
  import opened Bytes

  /** The bytes 00 00 01 stand at i. */
  predicate CodeAt(s: seq<byte>, i: int) {
    0 <= i && i + 2 < |s| && s[i] == 0 && s[i + 1] == 0 && s[i + 2] == 1
  }

  /** Reference definition: the least i >= p with a start code followed by at least one more byte, else the end. */
  function FirstCode(s: seq<byte>, p: nat): (r: nat)
    requires p <= |s|
    ensures p <= r <= |s|
    ensures r < |s| ==> CodeAt(s, r) && r + 3 < |s|
    ensures forall i :: p <= i < r && i + 3 < |s| ==> !CodeAt(s, i)
    decreases |s| - p
  {
    if p + 3 >= |s| then |s|
    else if CodeAt(s, p) then p
    else FirstCode(s, p + 1)
  }

  lemma FirstCodeIs(s: seq<byte>, p: nat, r: nat)
    requires p <= r <= |s|
    requires r < |s| ==> CodeAt(s, r) && r + 3 < |s|
    requires forall i :: p <= i < r && i + 3 < |s| ==> !CodeAt(s, i)
    ensures FirstCode(s, p) == r
  {
  }

  /** FirstCode, then back over one zero byte: the leading zero of a four-byte code. */
  function NextCode(s: seq<byte>, p: nat): (r: nat)
    requires p <= |s|
    ensures p <= r <= |s|
  {
    var out := FirstCode(s, p);
    if p < out < |s| && s[out - 1] == 0 then out - 1 else out
  }

  /** The 32-bit word a machine loads from four consecutive bytes. */
  function Word(b0: byte, b1: byte, b2: byte, b3: byte, bigEndian: bool): bv32 {
    if bigEndian
    then (b0 as bv32 << 24) | (b1 as bv32 << 16) | (b2 as bv32 << 8) | b3 as bv32
    else (b3 as bv32 << 24) | (b2 as bv32 << 16) | (b1 as bv32 << 8) | b0 as bv32
  }

  predicate ZeroByteTest(x: bv32) {
    (x - 0x01010101) & !x & 0x80808080 != 0
  }

  /** The bit trick is exact: it fires if and only if one of the four bytes is zero. */
  lemma ZeroByteTestExact(b0: byte, b1: byte, b2: byte, b3: byte, bigEndian: bool)
    ensures ZeroByteTest(Word(b0, b1, b2, b3, bigEndian)) <==> b0 == 0 || b1 == 0 || b2 == 0 || b3 == 0
  {
  }

  /**
   * The three-phase search: byte by byte to the next word boundary, word by word, then byte by byte
   * over the tail. Every read is inside the buffer.
   */
  method FindStartCode(s: seq<byte>, start: nat, align: nat, bigEndian: bool) returns (r: nat)
    requires start <= |s| && align < 4
    ensures r == FirstCode(s, start)
  {
    var p: int, end: int := start, |s|;
    var a := p + 4 - (align + p) % 4;
    end := end - 3;
    while p < a && p < end
      invariant start <= p && (p <= end || p == start)
      invariant forall i :: start <= i < p ==> !CodeAt(s, i)
      decreases end - p
    {
      if s[p] == 0 && s[p + 1] == 0 && s[p + 2] == 1 {
        FirstCodeIs(s, start, p);
        return p;
      }
      p := p + 1;
    }
    end := end - 3;
    while p < end
      invariant start <= p && (p <= end + 3 || p == start)
      invariant forall i :: start <= i < p ==> !CodeAt(s, i)
      decreases end - p
    {
      var x := Word(s[p], s[p + 1], s[p + 2], s[p + 3], bigEndian);
      ZeroByteTestExact(s[p], s[p + 1], s[p + 2], s[p + 3], bigEndian);
      if ZeroByteTest(x) {
        if s[p + 1] == 0 {
          if s[p] == 0 && s[p + 2] == 1 {
            FirstCodeIs(s, start, p);
            return p;
          }
          if s[p + 2] == 0 && s[p + 3] == 1 {
            FirstCodeIs(s, start, p + 1);
            return p + 1;
          }
        }
        if s[p + 3] == 0 {
          if s[p + 2] == 0 && s[p + 4] == 1 {
            FirstCodeIs(s, start, p + 2);
            return p + 2;
          }
          if s[p + 4] == 0 && s[p + 5] == 1 {
            FirstCodeIs(s, start, p + 3);
            return p + 3;
          }
        }
      }
      assert !CodeAt(s, p) && !CodeAt(s, p + 1) && !CodeAt(s, p + 2) && !CodeAt(s, p + 3);
      p := p + 4;
    }
    end := end + 3;
    while p < end
      invariant start <= p && (p <= end || p == start)
      invariant forall i :: start <= i < p ==> !CodeAt(s, i)
      decreases end - p
    {
      if s[p] == 0 && s[p + 1] == 0 && s[p + 2] == 1 {
        FirstCodeIs(s, start, p);
        return p;
      }
      p := p + 1;
    }
    r := end + 3;
    FirstCodeIs(s, start, r);
  }

  method H264StartCode(s: seq<byte>, start: nat, align: nat, bigEndian: bool) returns (r: nat)
    requires start <= |s| && align < 4
    ensures r == NextCode(s, start)
  {
    r := FindStartCode(s, start, align, bigEndian);
    if start < r && r < |s| && s[r - 1] == 0 {
      r := r - 1;
    }
  }
}
