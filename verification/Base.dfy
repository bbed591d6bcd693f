/** Machine integers, error codes and byte-order conversions shared by every module. */
module Base {
  type byte = b: int | 0 <= b < 0x100
  type u16 = w: int | 0 <= w < 0x1_0000
  type u32 = w: int | 0 <= w < 0x1_0000_0000
  type i32 = w: int | -0x8000_0000 <= w < 0x8000_0000
  type u64 = w: int | 0 <= w < 0x1_0000_0000_0000_0000

  /** One past the largest 64-bit word. */
  const WORD := 0x1_0000_0000_0000_0000

  datatype Errno = Errno(code: int)

  const ENOENT := Errno(2)
  const EINTR := Errno(4)
  const EIO := Errno(5)
  const EBADF := Errno(9)
  const EBUSY := Errno(16)
  const EINVAL := Errno(22)
  const ETIMEDOUT := Errno(110)

  datatype Option<+T> = None | Some(value: T)

  datatype Result<+T> = Ok(value: T) | Err(error: Errno) {
    predicate IsFailure() { Err? }
    function PropagateFailure<U>(): Result<U>
      requires Err?
    {
      Err(error)
    }
    function Extract(): T
      requires Ok?
    {
      value
    }
  }

  function Min(a: int, b: int): int {
    if a <= b then a else b
  }

  /** The unsigned image of a signed 32-bit value, and back. */
  function AsU32(v: i32): u32 {
    if v < 0 then v + 0x1_0000_0000 else v
  }

  function AsI32(v: u32): i32 {
    if v >= 0x8000_0000 then v - 0x1_0000_0000 else v
  }

  /** A 64-bit register read as a signed number. */
  function Signed(w: u64): int {
    if w >= 0x8000_0000_0000_0000 then w - 0x1_0000_0000_0000_0000 else w
  }

  /** `-errno` as the kernel leaves it in the result register. */
  function Negated(e: int): u64
    requires 1 <= e <= 4095
  {
    0x1_0000_0000_0000_0000 - e
  }

  /** `from_ret`: only the window -4095..-1 is an error, every other word is a value. */
  function FromRet(ret: u64): (r: Result<u64>) {
    var signed := Signed(ret);
    if -4095 <= signed < 0 then Err(Errno(-signed)) else Ok(ret)
  }

  function FromRetI32(ret: u64): (r: Result<i32>) {
    var v :- FromRet(ret);
    Ok(AsI32(v % 0x1_0000_0000))
  }

  /** Both directions of the return convention: `-errno` for 1..4095 decodes to that error, and
      every word that is no such value decodes to itself. */
  lemma RetDecodes(e: int, ret: u64)
    ensures 1 <= e <= 4095 ==> FromRet(Negated(e)) == Err(Errno(e))
    ensures FromRet(ret) != Ok(ret) ==> exists e | 1 <= e <= 4095 :: ret == Negated(e)
    ensures 0 <= ret < 0x8000_0000 ==> FromRetI32(ret) == Ok(ret)
  {
    if FromRet(ret) != Ok(ret) {
      assert ret == Negated(-Signed(ret));
    }
  }

  /** Big-endian 16-bit words, the network order of DNS. */
  function Be16(hi: byte, lo: byte): u16 {
    hi * 256 + lo
  }

  function Be16Bytes(v: u16): (s: seq<byte>)
    ensures |s| == 2 && Be16(s[0], s[1]) == v
  {
    [v / 256, v % 256]
  }

  lemma Be16Splits(hi: byte, lo: byte)
    ensures Be16(hi, lo) / 256 == hi && Be16(hi, lo) % 256 == lo
  {
  }

  /** Little-endian numbers of any width: the native order of both supported targets. */
  function Le(s: seq<byte>): nat {
    if s == [] then 0 else s[0] + 256 * Le(s[1..])
  }

  function LeBytes(v: nat, width: nat): (s: seq<byte>)
    ensures |s| == width
  {
    if width == 0 then [] else [v % 256] + LeBytes(v / 256, width - 1)
  }

  function Pow256(k: nat): nat {
    if k == 0 then 1 else 256 * Pow256(k - 1)
  }

  lemma Widths()
    ensures Pow256(1) == 0x100 && Pow256(2) == 0x1_0000 && Pow256(4) == 0x1_0000_0000 && Pow256(8) == WORD
  {
  }

  lemma {:induction false} LeOfBytes(v: nat, width: nat)
    requires v < Pow256(width)
    ensures Le(LeBytes(v, width)) == v
  {
    if width > 0 {
      assert LeBytes(v, width)[1..] == LeBytes(v / 256, width - 1);
      LeOfBytes(v / 256, width - 1);
    }
  }

  lemma {:induction false} LeBound(s: seq<byte>)
    ensures Le(s) < Pow256(|s|)
  {
    if s != [] {
      LeBound(s[1..]);
    }
  }

  lemma {:induction false} BytesOfLe(s: seq<byte>)
    ensures LeBytes(Le(s), |s|) == s
  {
    if s != [] {
      BytesOfLe(s[1..]);
      assert Le(s) / 256 == Le(s[1..]) && Le(s) % 256 == s[0];
      assert s == [s[0]] + s[1..];
    }
  }

  /** The bytes of a literal in ASCII. */
  function Ascii(s: string): (r: seq<byte>)
    ensures |r| == |s| && forall i | 0 <= i < |s| :: r[i] == s[i] as int % 0x80
  {
    if s == "" then [] else [s[0] as int % 0x80] + Ascii(s[1..])
  }

  lemma Associative<T>(a: seq<T>, b: seq<T>, c: seq<T>)
    ensures (a + b) + c == a + (b + c)
  {
  }

  /** The part of `s` before its first zero byte, and how long it is. */
  function NulIndex(s: seq<byte>): (k: nat)
    ensures k <= |s| && 0 !in s[..k] && (k < |s| ==> s[k] == 0)
  {
    if s == [] || s[0] == 0 then 0
    else
      var k := 1 + NulIndex(s[1..]);
      assert s[..k] == [s[0]] + s[1..][..k - 1];
      k
  }

  lemma {:induction false} NulIndexOf(name: seq<byte>, tail: seq<byte>)
    requires 0 !in name && (tail != [] ==> tail[0] == 0)
    ensures NulIndex(name + tail) == |name|
    decreases |name|
  {
    if name != [] {
      assert name[0] in name;
      assert (name + tail)[1..] == name[1..] + tail;
      NulIndexOf(name[1..], tail);
    } else {
      assert name + tail == tail;
    }
  }

  /** `position(|&b| b == 0)`, or the length when there is none. */
  method FindNul(s: seq<byte>) returns (k: nat)
    ensures k == NulIndex(s)
  {
    k := 0;
    while k < |s| && s[k] != 0
      invariant k <= |s| && 0 !in s[..k]
    {
      k := k + 1;
    }
    assert s == s[..k] + s[k..];
    NulIndexOf(s[..k], s[k..]);
  }
}
