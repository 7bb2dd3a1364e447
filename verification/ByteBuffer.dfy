/**
 * The byte buffer that frames are carried in: a window [mHead, mTail) over a reallocating array. Pointers are
 * indices into mStorage; every operation is proved to do to the contents what it says on a plain sequence.
 */
module ByteBuffer {
  import opened Bytes
  import opened Sequences

  /** Sizes are size_t, but expand() keeps its differences in ints: an allocation to expand must not exceed this. */
  const INT_MAX: nat := 0x7FFF_FFFF

  datatype Result<T> = Ok(value: T) | Panic

  lemma SliceOfSlice<T>(s: seq<T>, a: nat, b: nat, c: nat, d: nat)
    requires a <= b <= |s| && c <= d <= b - a
    ensures s[a..b][c..d] == s[a + c..a + d]
  {
    var part := s[a..b];
    assert forall i :: c <= i < d ==> part[i] == s[a + i];
  }

  lemma JoinSlices<T>(s: seq<T>, a: nat, b: nat, c: nat)
    requires a <= b <= c <= |s|
    ensures s[a..c] == s[a..b] + s[b..c]
  {
  }

  class Buffer {
    var mStorage: array<byte>
    var mSize: nat
    var mHead: nat
    var mTail: nat

    /** The window lies inside the storage, and the size is its width. */
    ghost predicate Valid()
      reads this
    {
      mHead <= mTail == mHead + mSize <= mStorage.Length
    }

    ghost function Contents(): seq<byte>
      requires Valid()
      reads this, mStorage
    {
      mStorage[mHead..mTail]
    }

    constructor ()
      ensures Valid() && Contents() == [] && fresh(mStorage)
    {
      mStorage := new byte[0];
      mSize, mHead, mTail := 0, 0, 0;
    }

    constructor Of(storage: seq<byte>)
      ensures Valid() && Contents() == storage && fresh(mStorage)
      ensures mStorage.Length == |storage|
    {
      mStorage := new byte[|storage|](i requires 0 <= i < |storage| => storage[i]);
      mSize, mHead, mTail := |storage|, 0, |storage|;
      new;
      assert mStorage[..] == storage;
    }

    /** memmove within one array: overlapping ranges are copied as if through a temporary. */
    static method Move(a: array<byte>, to: nat, from: nat, count: nat)
      requires to + count <= a.Length && from + count <= a.Length
      modifies a
      ensures a[to..to + count] == old(a[from..from + count])
      ensures a[..to] == old(a[..to]) && a[to + count..] == old(a[to + count..])
    {
      var temp := a[from..from + count];
      forall i | 0 <= i < count {
        a[to + i] := temp[i];
      }
      assert forall i :: 0 <= i < count ==> a[to + i] == temp[i];
    }

    /** memcpy from outside. */
    static method Copy(a: array<byte>, to: nat, source: seq<byte>)
      requires to + |source| <= a.Length
      modifies a
      ensures a[to..to + |source|] == source
      ensures a[..to] == old(a[..to]) && a[to + |source|..] == old(a[to + |source|..])
    {
      forall i | 0 <= i < |source| {
        a[to + i] := source[i];
      }
      assert forall i :: 0 <= i < |source| ==> a[to + i] == source[i];
    }

    static method Zero(a: array<byte>, from: nat)
      requires from <= a.Length
      modifies a
      ensures a[..from] == old(a[..from])
      ensures forall i :: from <= i < a.Length ==> a[i] == 0
    {
      forall i | from <= i < a.Length {
        a[i] := 0;
      }
    }

    method Tidy()
      requires Valid()
      modifies this`mHead, this`mTail
      ensures Valid() && Contents() == old(Contents())
    {
      if mHead != 0 {
        if mSize == 0 {
          mHead, mTail := 0, 0;
        }
      }
    }

    /** Makes room for count more bytes after the tail; the contents stay. */
    method Expand(count: nat)
      requires Valid() && mStorage.Length <= INT_MAX
      modifies this, mStorage
      ensures Valid() && Contents() == old(Contents())
      ensures mTail + count <= mStorage.Length
      ensures mStorage == old(mStorage)
        || (fresh(mStorage) && mStorage.Length == old(mStorage.Length) + count <= |old(Contents())| + 2 * count)
    {
      var spare := mStorage.Length - mSize;
      var headSpace := mHead;
      var tailSpace := spare - headSpace;
      var width := mTail - mHead;
      if spare > count {
        if tailSpace < count {
          Move(mStorage, 0, mHead, mSize);
          Zero(mStorage, mSize);
          mHead := 0;
          mTail := mHead + width;
        }
      } else {
        var newStorage := new byte[mStorage.Length + count](_ => 0);
        Copy(newStorage, 0, mStorage[mHead..mTail]);
        Zero(newStorage, mSize);
        mStorage := newStorage;
        mHead := 0;
        mTail := mHead + width;
      }
    }

    method Append(storage: seq<byte>) returns (size: nat)
      requires Valid() && mStorage.Length <= INT_MAX
      modifies this, mStorage
      ensures Valid() && Contents() == old(Contents()) + storage && size == |Contents()|
      ensures mStorage == old(mStorage) || (fresh(mStorage) && mStorage.Length <= |old(Contents())| + 2 * |storage|)
    {
      Expand(|storage|);
      ghost var before := mStorage[..];
      Copy(mStorage, mTail, storage);
      JoinAfter(before, mStorage[..], mHead, mTail, storage);
      mTail := mTail + |storage|;
      mSize := mSize + |storage|;
      size := mSize;
    }

    static lemma JoinAfter(s: seq<byte>, t: seq<byte>, a: nat, b: nat, more: seq<byte>)
      requires a <= b && b + |more| <= |t| == |s|
      requires t[..b] == s[..b] && t[b..b + |more|] == more
      ensures t[a..b + |more|] == s[a..b] + more
    {
      JoinSlices(t, a, b, b + |more|);
      SliceOfSlice(s, 0, b, a, b);
      SliceOfSlice(t, 0, b, a, b);
    }

    /** The two copies of insert: the window moves up to make room, then the new bytes go in front. */
    static method PutBefore(a: array<byte>, head: nat, size: nat, storage: seq<byte>)
      requires head + size + |storage| <= a.Length
      modifies a
      ensures a[head..head + |storage| + size] == storage + old(a[head..head + size])
    {
      var n := |storage|;
      Move(a, head + n, head, size);
      ghost var moved := a[..];
      Copy(a, head, storage);
      Unmoved(moved, a[..], head + n, head + n + size);
      JoinSlices(a[..], head, head + n, head + n + size);
      assert a[..][head..head + n] == storage;
    }

    method Insert(storage: seq<byte>) returns (size: nat)
      requires Valid() && mStorage.Length <= INT_MAX
      modifies this, mStorage
      ensures Valid() && Contents() == storage + old(Contents()) && size == |Contents()|
      ensures mStorage == old(mStorage) || (fresh(mStorage) && mStorage.Length <= |old(Contents())| + 2 * |storage|)
    {
      Expand(|storage|);
      PutBefore(mStorage, mHead, mSize, storage);
      mTail := mTail + |storage|;
      mSize := mSize + |storage|;
      size := mSize;
    }

    static lemma Unmoved(s: seq<byte>, t: seq<byte>, a: nat, b: nat)
      requires a <= b <= |s| == |t| && s[a..] == t[a..]
      ensures s[a..b] == t[a..b]
    {
      SliceOfSlice(s, a, |s|, 0, b - a);
      SliceOfSlice(t, a, |t|, 0, b - a);
    }

    /** Trims from the front; more than there is takes everything. */
    method Consume(request: nat) returns (count: nat)
      requires Valid()
      modifies this
      ensures Valid() && mStorage == old(mStorage)
      ensures count == if request > |old(Contents())| then |old(Contents())| else request
      ensures Contents() == old(Contents())[count..]
    {
      count := request;
      if count > mSize {
        count := mSize;
      }
      mHead := mHead + count;
      mSize := mSize - count;
      Tidy();
    }

    /** Trims from the end. */
    method Shrink(request: nat) returns (count: nat)
      requires Valid()
      modifies this
      ensures Valid() && mStorage == old(mStorage)
      ensures count == if request > |old(Contents())| then |old(Contents())| else request
      ensures Contents() == old(Contents())[..|old(Contents())| - count]
    {
      count := request;
      if count > mSize {
        count := mSize;
      }
      SliceOfSlice(mStorage[..], mHead, mTail, 0, mSize - count);
      mSize := mSize - count;
      if mTail > mHead + mSize {
        mTail := mHead + mSize;
      }
      Tidy();
    }

    /** Returns where the first bytes stand and takes them off the front; the bytes themselves stay in place. */
    method Extract(request: nat) returns (oldHead: nat, ghost count: nat)
      requires Valid()
      modifies this
      ensures Valid() && mStorage == old(mStorage)
      ensures count == if request > |old(Contents())| then |old(Contents())| else request
      ensures oldHead + count <= mStorage.Length && mStorage[oldHead..oldHead + count] == old(Contents())[..count]
      ensures Contents() == old(Contents())[count..]
    {
      var size := request;
      if size > mSize {
        size := mSize;
      }
      count := size;
      SliceOfSlice(mStorage[..], mHead, mTail, 0, size);
      oldHead := mHead;
      mHead := mHead + size;
      mSize := mSize - size;
      Tidy();
    }

    method Assign(storage: seq<byte>) returns (size: nat)
      requires Valid()
      modifies this, mStorage
      ensures Valid() && Contents() == storage && size == |storage|
      ensures mStorage == old(mStorage) || fresh(mStorage)
    {
      if mStorage.Length < |storage| {
        mStorage := new byte[|storage|];
      }
      mSize := |storage|;
      Copy(mStorage, 0, storage);
      mHead := 0;
      mTail := mHead + mSize;
      size := mSize;
    }

    /** A copy of part of the contents; a negative or too large index, or a range past the tail, panics. */
    method Range(index: int, size: nat) returns (r: Result<Buffer>)
      requires Valid()
      ensures r.Ok? <==> 0 <= index < |Contents()| && index + size <= |Contents()|
      ensures r.Ok? ==> fresh(r.value) && r.value.Valid() && r.value.Contents() == Contents()[index..index + size]
    {
      if index < 0 || index >= mSize {
        return Panic;
      }
      var start := mHead + index;
      var end := start + size;
      if end > mTail {
        return Panic;
      }
      SliceOfSlice(mStorage[..], mHead, mTail, index, index + size);
      var part := new Buffer.Of(mStorage[start..end]);
      return Ok(part);
    }
  }

  // ---------- the buffer as a byte stream ----------

  datatype StreamOp = Put(bytes: seq<byte>) | Take(count: nat)

  function Least(a: nat, b: nat): nat {
    if a < b then a else b
  }

  /** What one operation leaves, what it takes out, and what it brings. */
  function LeftBy(contents: seq<byte>, op: StreamOp): seq<byte> {
    match op
    case Put(bytes) => contents + bytes
    case Take(count) => contents[Least(count, |contents|)..]
  }

  function TakenBy(contents: seq<byte>, op: StreamOp): seq<byte> {
    match op
    case Put(_) => []
    case Take(count) => contents[..Least(count, |contents|)]
  }

  function GivenBy(op: StreamOp): seq<byte> {
    match op
    case Put(bytes) => bytes
    case Take(_) => []
  }

  /** The same for a run of operations. */
  function Left(contents: seq<byte>, ops: seq<StreamOp>): seq<byte> {
    if ops == [] then contents else LeftBy(Left(contents, ops[..|ops| - 1]), ops[|ops| - 1])
  }

  function Taken(contents: seq<byte>, ops: seq<StreamOp>): seq<byte> {
    if ops == [] then []
    else
      var before := ops[..|ops| - 1];
      Taken(contents, before) + TakenBy(Left(contents, before), ops[|ops| - 1])
  }

  function Given(ops: seq<StreamOp>): seq<byte> {
    if ops == [] then [] else Given(ops[..|ops| - 1]) + GivenBy(ops[|ops| - 1])
  }

  lemma OneInOneOut(contents: seq<byte>, op: StreamOp)
    ensures TakenBy(contents, op) + LeftBy(contents, op) == contents + GivenBy(op)
  {
  }

  lemma Regroup<T>(start: seq<T>, taken: seq<T>, left: seq<T>, given: seq<T>, out: seq<T>, rest: seq<T>, more: seq<T>)
    requires taken + left == start + given && out + rest == left + more
    ensures (taken + out) + rest == start + (given + more)
  {
    Associative(taken, out, rest);
    Associative(taken, left, more);
    Associative(start, given, more);
  }

  /** In every run no byte is lost, repeated or reordered. */
  lemma {:induction false} FirstInFirstOut(contents: seq<byte>, ops: seq<StreamOp>)
    ensures Taken(contents, ops) + Left(contents, ops) == contents + Given(ops)
    decreases |ops|
  {
    if ops != [] {
      var before, op := ops[..|ops| - 1], ops[|ops| - 1];
      FirstInFirstOut(contents, before);
      var left := Left(contents, before);
      OneInOneOut(left, op);
      Regroup(contents, Taken(contents, before), left, Given(before), TakenBy(left, op), LeftBy(left, op), GivenBy(op));
    }
  }

  method RunOne(b: Buffer, op: StreamOp) returns (taken: seq<byte>)
    requires b.Valid() && b.mStorage.Length <= INT_MAX
    modifies b, b.mStorage
    ensures b.Valid() && b.Contents() == LeftBy(old(b.Contents()), op)
    ensures taken == TakenBy(old(b.Contents()), op)
    ensures b.mStorage == old(b.mStorage)
      || (fresh(b.mStorage) && b.mStorage.Length <= |old(b.Contents())| + 2 * |GivenBy(op)|)
  {
    match op {
      case Put(bytes) =>
        var _ := b.Append(bytes);
        taken := [];
      case Take(count) =>
        var size := b.mSize;
        var head, _ := b.Extract(count);
        taken := b.mStorage[head..head + Least(count, size)];
    }
  }

  /** What is in the buffer when an operation comes, with twice what that brings, fits an int. */
  ghost predicate Roomy(contents: seq<byte>, ops: seq<StreamOp>) {
    forall j :: 0 <= j < |ops| ==> |Left(contents, ops[..j])| + 2 * |GivenBy(ops[j])| <= INT_MAX
  }

  /**
   * Puts bytes in and takes bytes out as the operations say; taken is all that came out, in order. However much
   * goes through, only what is in the buffer at a time is limited.
   */
  method RunStream(b: Buffer, ops: seq<StreamOp>) returns (taken: seq<byte>)
    requires b.Valid() && b.mStorage.Length <= INT_MAX && Roomy(b.Contents(), ops)
    modifies b, b.mStorage
    ensures b.Valid()
    ensures taken == Taken(old(b.Contents()), ops) && b.Contents() == Left(old(b.Contents()), ops)
    ensures taken + b.Contents() == old(b.Contents()) + Given(ops)
  {
    ghost var contents := b.Contents();
    taken := [];
    var i := 0;
    while i < |ops|
      invariant 0 <= i <= |ops| && b.Valid()
      invariant b.mStorage == old(b.mStorage) || fresh(b.mStorage)
      invariant b.mStorage.Length <= INT_MAX
      invariant taken == Taken(contents, ops[..i]) && b.Contents() == Left(contents, ops[..i])
    {
      StreamStep(contents, ops, i);
      var out := RunOne(b, ops[i]);
      taken := taken + out;
      i := i + 1;
    }
    assert ops[..i] == ops;
    FirstInFirstOut(contents, ops);
  }

  lemma StreamStep(contents: seq<byte>, ops: seq<StreamOp>, i: nat)
    requires i < |ops|
    ensures Left(contents, ops[..i + 1]) == LeftBy(Left(contents, ops[..i]), ops[i])
    ensures Taken(contents, ops[..i + 1]) == Taken(contents, ops[..i]) + TakenBy(Left(contents, ops[..i]), ops[i])
  {
    assert ops[..i + 1][..i] == ops[..i];
  }
}
