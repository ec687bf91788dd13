/** Writing a stretch of shadow memory with few wide stores and runtime calls. */
module ShadowWriter {
  import opened Splices

  type Byte = b: int | 0 <= b < 256

  // ----- wide stores -----

  function Pow256(n: nat): (r: nat)
    ensures r >= 1
  {
    if n == 0 then 1 else 256 * Pow256(n - 1)
  }

  /** The number whose store in the given byte order writes `bytes`. */
  function Packed(bytes: seq<Byte>, little: bool): nat {
    if bytes == [] then 0
    else if little then bytes[0] + 256 * Packed(bytes[1..], little)
    else Packed(bytes[..|bytes| - 1], little) * 256 + bytes[|bytes| - 1]
  }

  /** The bytes a store of an `n`-byte number writes. */
  function Stored(val: nat, n: nat, little: bool): (r: seq<Byte>)
    ensures |r| == n
  {
    if n == 0 then []
    else if little then [val % 256] + Stored(val / 256, n - 1, little)
    else Stored(val / 256, n - 1, little) + [val % 256]
  }

  lemma {:induction false} StoreRoundTrip(bytes: seq<Byte>, little: bool)
    ensures Stored(Packed(bytes, little), |bytes|, little) == bytes
  {
    if bytes != [] {
      var rest := if little then bytes[1..] else bytes[..|bytes| - 1];
      StoreRoundTrip(rest, little);
      LowByte(if little then bytes[0] else bytes[|bytes| - 1], Packed(rest, little));
    }
  }

  lemma LowByte(b: Byte, rest: nat)
    ensures (b + 256 * rest) % 256 == b && (b + 256 * rest) / 256 == rest
  {
  }

  lemma {:induction false} PackedGrows(bytes: seq<Byte>, j: nat)
    requires j < |bytes|
    ensures Packed(bytes[..j + 1], true) == Packed(bytes[..j], true) + bytes[j] * Pow256(j)
  {
    if j > 0 {
      PackedGrows(bytes[1..], j - 1);
      assert bytes[..j + 1][1..] == bytes[1..][..j] && bytes[..j][1..] == bytes[1..][..j - 1];
      assert 256 * (bytes[j] * Pow256(j - 1)) == bytes[j] * Pow256(j);
    } else {
      assert bytes[..1][1..] == [];
    }
  }

  /** The value of one wide store, built byte by byte. */
  method PackBytes(bytes: seq<Byte>, little: bool) returns (val: nat)
    ensures val == Packed(bytes, little)
  {
    val := 0;
    var shift: nat := 1;
    for j := 0 to |bytes|
      invariant shift == Pow256(j) && val == Packed(bytes[..j], little)
    {
      if little {
        PackedGrows(bytes, j);
        val := val + bytes[j] * shift;
      } else {
        assert bytes[..j + 1][..j] == bytes[..j];
        val := val * 256 + bytes[j];
      }
      shift := shift * 256;
    }
    assert bytes[..|bytes|] == bytes;
  }

  // ----- writing -----

  predicate IsStoreSize(n: nat) {
    n == 1 || n == 2 || n == 4 || n == 8
  }

  /** The values the runtime has a set_shadow function for. */
  const SET_SHADOW_VALUES: set<Byte> := {0x00, 0xf1, 0xf2, 0xf3, 0xf5, 0xf8}

  /** Where the mask is zero, the source and the old shadow are zero as well. */
  ghost predicate ZerosAgree(mask: seq<Byte>, bytes: seq<Byte>, shadow: seq<Byte>, base: nat, begin: nat, end: nat)
    requires |mask| == |bytes| && end <= |mask| && base + end <= |shadow|
  {
    forall i :: begin <= i < end && mask[i] == 0 ==> bytes[i] == 0 && shadow[base + i] == 0
  }

  /** `t` is `s` with [begin, done) of `bytes` written behind `base`. */
  ghost predicate Written(s: seq<Byte>, t: seq<Byte>, bytes: seq<Byte>, base: nat, begin: nat, done: nat)
    requires done <= |bytes| && base + done <= |s|
  {
    && |t| == |s|
    && (forall i :: begin <= i < done ==> t[base + i] == bytes[i])
    && (forall x :: 0 <= x < |s| && !(base + begin <= x < base + done) ==> t[x] == s[x])
  }

  /** The largest store size that leaves room. */
  function FittingSize(largest: nat, room: nat): (n: nat)
    requires IsStoreSize(largest) && room > 0
    ensures IsStoreSize(n) && n <= largest && n <= room
  {
    if largest <= room then largest else FittingSize(largest / 2, room)
  }

  /** The size of a store at `i`: what fits before `end`, halved as long as that drops only zero
      mask bytes. */
  method StoreSize(mask: seq<Byte>, i: nat, end: nat, largest: nat) returns (size: nat)
    requires i < end <= |mask| && IsStoreSize(largest)
    ensures IsStoreSize(size) && size <= FittingSize(largest, end - i)
    ensures size == 1 || exists m :: i + size / 2 <= m < i + size && mask[m] != 0
    ensures forall m :: i + size <= m < i + FittingSize(largest, end - i) ==> mask[m] == 0
  {
    size := largest;
    while size > end - i
      invariant IsStoreSize(size) && FittingSize(size, end - i) == FittingSize(largest, end - i)
      decreases size
    {
      size := size / 2;
    }
    ghost var fit := size;
    var j := size - 1;
    while j != 0 && mask[i + j] == 0
      invariant IsStoreSize(size) && size <= fit && size / 2 <= j < size
      invariant forall m :: i + j < m < i + fit ==> mask[m] == 0
      decreases j
    {
      while j <= size / 2
        invariant IsStoreSize(size) && size <= fit && size / 2 <= j <= size
        decreases size
      {
        size := size / 2;
      }
      j := j - 1;
    }
    assert j != 0 ==> i + size / 2 <= i + j < i + size && mask[i + j] != 0;
  }

  class ShadowMemory {
    const shadow: array<Byte>

    constructor (size: nat)
      ensures shadow.Length == size && fresh(shadow)
      ensures forall x :: 0 <= x < size ==> shadow[x] == 0
    {
      shadow := new Byte[size](_ => 0);
    }

    /** One emitted store. */
    method Store(at: nat, val: nat, n: nat, little: bool)
      requires at + n <= shadow.Length
      modifies shadow
      ensures shadow[..] == Splice(old(shadow[..]), at, Stored(val, n, little))
    {
      var bytes := Stored(val, n, little);
      for k := 0 to n
        invariant forall x :: 0 <= x < shadow.Length ==>
                    shadow[x] == if at <= x < at + k then bytes[x - at] else old(shadow[x])
      {
        shadow[at + k] := bytes[k];
      }
    }

    /** A wide store of the bytes it is packed from. */
    method StoreBytes(at: nat, bytes: seq<Byte>, little: bool)
      requires at + |bytes| <= shadow.Length
      modifies shadow
      ensures shadow[..] == Splice(old(shadow[..]), at, bytes)
    {
      var val := PackBytes(bytes, little);
      StoreRoundTrip(bytes, little);
      Store(at, val, |bytes|, little);
    }

    /** The runtime call that sets `n` shadow bytes to one value. */
    method SetShadow(at: nat, n: nat, val: Byte)
      requires at + n <= shadow.Length
      modifies shadow
      ensures forall x :: 0 <= x < shadow.Length ==> shadow[x] == if at <= x < at + n then val else old(shadow[x])
    {
      for k := 0 to n
        invariant forall x :: 0 <= x < shadow.Length ==> shadow[x] == if at <= x < at + k then val else old(shadow[x])
      {
        shadow[at + k] := val;
      }
    }

    /** Writes [begin, end) of `bytes` with stores as large as fit, from a nonzero mask byte to a
        nonzero mask byte; zeros in between are written along. */
    method CopyInline(mask: seq<Byte>, bytes: seq<Byte>, base: nat, begin: nat, end: nat, largest: nat, little: bool)
      requires |mask| == |bytes| && end <= |mask| && base + end <= shadow.Length && IsStoreSize(largest)
      requires ZerosAgree(mask, bytes, shadow[..], base, begin, end)
      modifies shadow
      ensures begin <= end ==> Written(old(shadow[..]), shadow[..], bytes, base, begin, end)
      ensures begin > end ==> shadow[..] == old(shadow[..])
    {
      if begin >= end {
        return;
      }
      var i := begin;
      ghost var s := shadow[..];
      while i < end
        invariant begin <= i <= end
        invariant Written(s, shadow[..], bytes, base, begin, i)
      {
        if mask[i] == 0 {
          SkipWritten(s, shadow[..], bytes, base, begin, i);
          i := i + 1;
          continue;
        }
        var size := StoreSize(mask, i, end, largest);
        ghost var t := shadow[..];
        StoreBytes(base + i, bytes[i..i + size], little);
        ExtendWritten(s, t, shadow[..], bytes, base, begin, i, i + size);
        i := i + size;
      }
    }

    /** Runs of at least `maxInline` equal bytes are left to the runtime, the rest is inlined. */
    method CopyToShadow(mask: seq<Byte>, bytes: seq<Byte>, base: nat, begin: nat, end: nat,
                        maxInline: nat, largest: nat, little: bool)
      requires |mask| == |bytes| && begin <= end <= |mask| && base + end <= shadow.Length && IsStoreSize(largest)
      requires ZerosAgree(mask, bytes, shadow[..], base, begin, end)
      modifies shadow
      ensures shadow[..] == Splice(old(shadow[..]), base + begin, bytes[begin..end])
    {
      var done, i, j := begin, begin, begin + 1;
      while i < end
        invariant begin <= done <= i <= end && j == i + 1
        invariant Written(old(shadow[..]), shadow[..], bytes, base, begin, done)
      {
        if mask[i] == 0 {
          i, j := j, j + 1;
          continue;
        }
        var val := bytes[i];
        if val !in SET_SHADOW_VALUES {
          i, j := j, j + 1;
          continue;
        }
        while j < end && mask[j] != 0 && val == bytes[j]
          invariant i < j <= end
          invariant forall k :: i <= k < j ==> bytes[k] == val
        {
          j := j + 1;
        }
        if j - i >= maxInline {
          ghost var before := shadow[..];
          CopyInline(mask, bytes, base, done, i, largest, little);
          ghost var between := shadow[..];
          SetShadow(base + i, j - i, val);
          JoinWritten(old(shadow[..]), before, between, bytes, base, begin, done, i);
          JoinWritten(old(shadow[..]), between, shadow[..], bytes, base, begin, i, j);
          done := j;
        }
        i, j := j, j + 1;
      }
      ghost var before := shadow[..];
      CopyInline(mask, bytes, base, done, end, largest, little);
      JoinWritten(old(shadow[..]), before, shadow[..], bytes, base, begin, done, end);
      WrittenIsSplice(old(shadow[..]), shadow[..], bytes, base, begin, end);
    }
  }

  /** Two adjacent stretches written one after the other. */
  lemma JoinWritten(s: seq<Byte>, t: seq<Byte>, u: seq<Byte>, bytes: seq<Byte>, base: nat, a: nat, b: nat, c: nat)
    requires a <= b <= c <= |bytes| && base + c <= |s|
    requires Written(s, t, bytes, base, a, b) && Written(t, u, bytes, base, b, c)
    ensures Written(s, u, bytes, base, a, c)
  {
    forall i | a <= i < c
      ensures u[base + i] == bytes[i]
    {
      if i < b {
        assert t[base + i] == bytes[i];
      }
    }
  }

  lemma SkipWritten(s: seq<Byte>, t: seq<Byte>, bytes: seq<Byte>, base: nat, a: nat, b: nat)
    requires a <= b < |bytes| && base + b < |s| && Written(s, t, bytes, base, a, b)
    requires s[base + b] == bytes[b]
    ensures Written(s, t, bytes, base, a, b + 1)
  {
  }

  lemma ExtendWritten(s: seq<Byte>, t: seq<Byte>, u: seq<Byte>, bytes: seq<Byte>, base: nat, a: nat, b: nat, c: nat)
    requires a <= b <= c <= |bytes| && base + c <= |s|
    requires Written(s, t, bytes, base, a, b) && u == Splice(t, base + b, bytes[b..c])
    ensures Written(s, u, bytes, base, a, c)
  {
    forall i | b <= i < c
      ensures u[base + i] == bytes[i]
    {
      assert u[base + i] == bytes[b..c][i - b];
    }
    JoinWritten(s, t, u, bytes, base, a, b, c);
  }

  lemma WrittenIsSplice(s: seq<Byte>, t: seq<Byte>, bytes: seq<Byte>, base: nat, begin: nat, end: nat)
    requires begin <= end <= |bytes| && base + end <= |s| && Written(s, t, bytes, base, begin, end)
    ensures t == Splice(s, base + begin, bytes[begin..end])
  {
    var r := Splice(s, base + begin, bytes[begin..end]);
    forall x | 0 <= x < |s|
      ensures t[x] == r[x]
    {
      if base + begin <= x < base + end {
        assert t[base + (x - base)] == bytes[x - base];
      }
    }
  }
}
