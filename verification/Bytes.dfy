/**
 Bytes, little-endian integers and the error values shared by all modules.

 A slice that the client advances (`&mut &[u8]`) is a `seq<byte>`: every reader takes the
 slice and returns the value together with the slice that is left.
 */
module Bytes {

  type byte = x: int | 0 <= x < 256
  type u16 = x: int | 0 <= x < 0x1_0000
  type u32 = x: int | 0 <= x < 0x1_0000_0000
  type u64 = x: int | 0 <= x < 0x1_0000_0000_0000_0000

  datatype Option<+T> = None | Some(value: T)

  /** The ways an operation of the client can end other than with a value.  `Panic` stands for
      every Rust panic: a slice index out of range, a failed `assert!`, an arithmetic overflow. */
  datatype Error =
    | UnexpectedEof
    | TimedOut
    | IoSync(id: u32)
    | Overflow
    | Reply(what: ReplyError, value: nat)
    | Ads(code: u32)
    | TaskInfoLayout
    | Panic

  /** The reasons carried by `Error::Reply`. */
  datatype ReplyError =
    | WrongSource | WrongCommand | WrongStateFlags | WrongInvokeId | ShortReply
    | InvalidPacket | InconsistentLengths | UnknownInvokeId
    | StringTooLong | BadTypeVersion | BadEntryLength
    | BadMagic | BadService | UnexpectedLength | IndexOverflow

  datatype Result<+T> = Ok(value: T) | Err(error: Error) {
    predicate IsFailure() { Err? }
    function PropagateFailure<U>(): Result<U>
      requires Err?
    {
      Err(error)
    }
    function Extract(): T
      requires Ok?
    {
      value
    }
  }

  // ----- little-endian integers

  function Pow256(n: nat): (p: nat)
    ensures p > 0
  {
    if n == 0 then 1 else 256 * Pow256(n - 1)
  }

  /** The `n` low-order bytes of `v`, least significant first. */
  function Le(v: nat, n: nat): (s: seq<byte>)
    ensures |s| == n
    decreases n
  {
    if n == 0 then [] else [v % 256] + Le(v / 256, n - 1)
  }

  /** The number whose little-endian digits are `s`. */
  function Unle(s: seq<byte>): nat {
    if s == [] then 0 else s[0] + 256 * Unle(s[1..])
  }

  lemma {:induction false} UnleBound(s: seq<byte>)
    ensures Unle(s) < Pow256(|s|)
  {
    if s != [] {
      UnleBound(s[1..]);
    }
  }

  /** Decoding an encoded number keeps exactly its low-order digits, so nothing is lost iff the
      number fits. */
  lemma {:induction false} UnleLe(v: nat, n: nat)
    ensures Unle(Le(v, n)) == v <==> v < Pow256(n)
    decreases n
  {
    if n == 0 {
    } else {
      var s := Le(v, n);
      assert s[1..] == Le(v / 256, n - 1);
      UnleLe(v / 256, n - 1);
      assert Unle(s) == v % 256 + 256 * Unle(s[1..]);
    }
  }

  lemma {:induction false} LeUnle(s: seq<byte>)
    ensures Le(Unle(s), |s|) == s
  {
    if s != [] {
      LeUnle(s[1..]);
      assert Unle(s) % 256 == s[0] && Unle(s) / 256 == Unle(s[1..]);
      assert s == [s[0]] + s[1..];
    }
  }

  lemma {:induction false} Pow256Values()
    ensures Pow256(1) == 0x100
    ensures Pow256(2) == 0x1_0000
    ensures Pow256(4) == 0x1_0000_0000
    ensures Pow256(8) == 0x1_0000_0000_0000_0000
  {
    assert Pow256(2) == 256 * Pow256(1);
    assert Pow256(3) == 256 * Pow256(2);
    assert Pow256(4) == 256 * Pow256(3);
    assert Pow256(5) == 256 * Pow256(4);
    assert Pow256(6) == 256 * Pow256(5);
    assert Pow256(7) == 256 * Pow256(6);
    assert Pow256(8) == 256 * Pow256(7);
  }

  // ----- readers: value and remaining slice

  /** Take `n` bytes off the front (`read_exact`, `split_at` guarded by a length check). */
  function Take(p: seq<byte>, n: nat): Result<(seq<byte>, seq<byte>)> {
    if |p| < n then Err(UnexpectedEof) else Ok((p[..n], p[n..]))
  }

  function U16(s: seq<byte>): u16
    requires |s| == 2
  {
    UnleBound(s); Pow256Values();
    Unle(s)
  }

  function U32(s: seq<byte>): u32
    requires |s| == 4
  {
    UnleBound(s); Pow256Values();
    Unle(s)
  }

  function U64(s: seq<byte>): u64
    requires |s| == 8
  {
    UnleBound(s); Pow256Values();
    Unle(s)
  }

  function ReadU8(p: seq<byte>): Result<(byte, seq<byte>)> {
    if |p| < 1 then Err(UnexpectedEof) else Ok((p[0], p[1..]))
  }

  function ReadU16(p: seq<byte>): Result<(u16, seq<byte>)> {
    if |p| < 2 then Err(UnexpectedEof) else Ok((U16(p[..2]), p[2..]))
  }

  function ReadU32(p: seq<byte>): Result<(u32, seq<byte>)> {
    if |p| < 4 then Err(UnexpectedEof) else Ok((U32(p[..4]), p[4..]))
  }

  function ReadU64(p: seq<byte>): Result<(u64, seq<byte>)> {
    if |p| < 8 then Err(UnexpectedEof) else Ok((U64(p[..8]), p[8..]))
  }

  /** The low-order byte comes first. */
  lemma {:induction false} LittleEndian(s: seq<byte>)
    requires |s| == 4
    ensures var a: int, b: int, c: int, d: int := s[0], s[1], s[2], s[3];
      U32(s) == a + 0x100 * b + 0x1_0000 * c + 0x100_0000 * d && U16(s[..2]) == a + 0x100 * b
  {
    var a, b, c := s[1..], s[2..], s[3..];
    assert a[1..] == b && b[1..] == c && c[1..] == [];
    assert Unle(c) == s[3] + 256 * Unle([]);
    assert Unle(b) == s[2] + 256 * Unle(c);
    assert Unle(a) == s[1] + 256 * Unle(b);
    assert s[..2][1..] == [s[1]] && [s[1]][1..] == [];
    assert Unle([s[1]]) == s[1] + 256 * Unle([]);
  }

  /** And of eight bytes the low-order half. */
  lemma {:induction false} LittleEndian64(s: seq<byte>)
    requires |s| == 8
    ensures U64(s) == U32(s[..4]) + 0x1_0000_0000 * U32(s[4..])
  {
    hide Le;
    UnleCons(s[0], s[1..]);
    UnleCons(s[1], s[2..]);
    UnleCons(s[2], s[3..]);
    UnleCons(s[3], s[4..]);
    assert s == [s[0]] + s[1..] && s[1..] == [s[1]] + s[2..] && s[2..] == [s[2]] + s[3..] && s[3..] == [s[3]] + s[4..];
    LittleEndian(s[..4]);
  }

  lemma {:induction false} UnleCons(x: byte, rest: seq<byte>)
    ensures Unle([x] + rest) == x + 256 * Unle(rest)
  {
    assert ([x] + rest)[1..] == rest;
  }

  /** The two's complement reading of an unsigned `bits`-wide value. */
  function Signed(v: nat, half: nat): int {
    if v < half then v else v - 2 * half
  }

  function Unsigned(v: int, half: nat): int {
    if v < 0 then v + 2 * half else v
  }

  // Each reader takes back what the matching encoding put in front of the rest.

  lemma {:induction false} TakeBack(s: seq<byte>, rest: seq<byte>)
    ensures Take(s + rest, |s|) == Ok((s, rest))
  {
    assert (s + rest)[..|s|] == s && (s + rest)[|s|..] == rest;
  }

  lemma {:induction false} U8Back(v: byte, rest: seq<byte>)
    ensures ReadU8([v] + rest) == Ok((v, rest))
  {
    assert ([v] + rest)[1..] == rest;
  }

  lemma {:induction false} U16Back(v: u16, rest: seq<byte>)
    ensures ReadU16(Le(v, 2) + rest) == Ok((v, rest))
  {
    TakeBack(Le(v, 2), rest);
    UnleLe(v, 2); Pow256Values();
  }

  lemma {:induction false} U32Back(v: u32, rest: seq<byte>)
    ensures ReadU32(Le(v, 4) + rest) == Ok((v, rest))
  {
    TakeBack(Le(v, 4), rest);
    UnleLe(v, 4); Pow256Values();
  }

  lemma {:induction false} U64Back(v: u64, rest: seq<byte>)
    ensures ReadU64(Le(v, 8) + rest) == Ok((v, rest))
  {
    TakeBack(Le(v, 8), rest);
    UnleLe(v, 8); Pow256Values();
  }

  // ----- lists of byte strings

  function Flatten(ss: seq<seq<byte>>): seq<byte> {
    if ss == [] then [] else ss[0] + Flatten(ss[1..])
  }

  /** Where element `k` starts when elements of these lengths are laid end to end. */
  function Offset(lens: seq<nat>, k: nat): nat
    requires k <= |lens|
  {
    if k == 0 then 0 else Offset(lens, k - 1) + lens[k - 1]
  }

  function Lens(ss: seq<seq<byte>>): (lens: seq<nat>)
    ensures |lens| == |ss|
    ensures forall k :: 0 <= k < |ss| ==> lens[k] == |ss[k]|
  {
    seq(|ss|, k requires 0 <= k < |ss| => |ss[k]|)
  }

  lemma {:induction false} OffsetShift(lens: seq<nat>, k: nat)
    requires 0 < k <= |lens|
    ensures Offset(lens, k) == lens[0] + Offset(lens[1..], k - 1)
  {
    if k > 1 {
      OffsetShift(lens, k - 1);
    }
  }

  lemma {:induction false} OffsetMonotone(lens: seq<nat>, j: nat, k: nat)
    requires j <= k <= |lens|
    ensures Offset(lens, j) <= Offset(lens, k)
    ensures j < k ==> Offset(lens, j + 1) <= Offset(lens, k)
    decreases k
  {
    if j < k - 1 {
      OffsetMonotone(lens, j, k - 1);
    }
  }

  lemma {:induction false} FlattenLength(ss: seq<seq<byte>>)
    ensures |Flatten(ss)| == Offset(Lens(ss), |ss|)
  {
    if ss != [] {
      FlattenLength(ss[1..]);
      OffsetShift(Lens(ss), |ss|);
      assert Lens(ss)[1..] == Lens(ss[1..]);
    }
  }

  lemma {:induction false} SliceShift(a: seq<byte>, b: seq<byte>, o: nat, n: nat)
    requires o + n <= |b|
    ensures (a + b)[|a| + o..|a| + o + n] == b[o..o + n]
  {
  }

  lemma {:induction false} FirstSlice(lens: seq<nat>, a: seq<byte>, b: seq<byte>)
    ensures Offset(lens, 0) == 0 && (a + b)[0..|a|] == a
  {
  }

  /** Element `k` of the list is the stretch of the concatenation starting at its offset. */
  lemma {:induction false} FlattenSlice(ss: seq<seq<byte>>, k: nat)
    requires k < |ss|
    ensures Offset(Lens(ss), k) + |ss[k]| <= |Flatten(ss)|
    ensures Flatten(ss)[Offset(Lens(ss), k)..Offset(Lens(ss), k) + |ss[k]|] == ss[k]
  {
    hide Flatten, Offset;
    FlattenCons(ss);
    if k == 0 {
      FirstSlice(Lens(ss), ss[0], Flatten(ss[1..]));
    } else {
      FlattenSlice(ss[1..], k - 1);
      OffsetShift(Lens(ss), k);
      assert Lens(ss)[1..] == Lens(ss[1..]);
      SliceShift(ss[0], Flatten(ss[1..]), Offset(Lens(ss[1..]), k - 1), |ss[k]|);
    }
  }

  lemma {:induction false} Assoc(a: seq<byte>, b: seq<byte>, c: seq<byte>)
    ensures a + b + c == a + (b + c)
  {
  }

  lemma {:induction false} Regroup(a: seq<byte>, b: seq<byte>, c: seq<byte>, rest: seq<byte>)
    ensures a + (b + (c + rest)) == a + (b + c) + rest
  {
  }

  lemma {:induction false} AppendedHead(a: seq<seq<byte>>, b: seq<seq<byte>>)
    requires a != []
    ensures (a + b)[0] == a[0] && (a + b)[1..] == a[1..] + b
  {
  }

  lemma {:induction false} FlattenCons(ss: seq<seq<byte>>)
    requires ss != []
    ensures Flatten(ss) == ss[0] + Flatten(ss[1..])
  {
  }

  lemma {:induction false} FlattenNone(a: seq<seq<byte>>, b: seq<seq<byte>>)
    requires a == []
    ensures Flatten(a + b) == Flatten(a) + Flatten(b)
  {
    assert a + b == b;
  }

  lemma {:induction false} FlattenAppend(a: seq<seq<byte>>, b: seq<seq<byte>>)
    ensures Flatten(a + b) == Flatten(a) + Flatten(b)
  {
    hide Flatten;
    if a == [] {
      FlattenNone(a, b);
    } else {
      calc {
        Flatten(a + b);
      == { FlattenCons(a + b); AppendedHead(a, b); }
        a[0] + Flatten(a[1..] + b);
      == { FlattenAppend(a[1..], b); }
        a[0] + (Flatten(a[1..]) + Flatten(b));
      == { Assoc(a[0], Flatten(a[1..]), Flatten(b)); }
        a[0] + Flatten(a[1..]) + Flatten(b);
      == { FlattenCons(a); }
        Flatten(a) + Flatten(b);
      }
    }
  }

  lemma {:induction false} FlattenSnoc(ss: seq<seq<byte>>, i: nat)
    requires i < |ss|
    ensures Flatten(ss[..i + 1]) == Flatten(ss[..i]) + ss[i]
  {
    assert ss[..i + 1] == ss[..i] + [ss[i]];
    FlattenAppend(ss[..i], [ss[i]]);
    assert Flatten([ss[i]]) == ss[i] + Flatten([]);
  }
}
