/** The allocation-free path printers (`format_pts_path`, `proc_fd_path`). */
module Decimal {
  import opened Base

  const ZERO: byte := 48
  const MINUS: byte := 45

  /** "/dev/pts/" and "/proc/self/fd/". */
  const DEV_PTS: seq<byte> := [47, 100, 101, 118, 47, 112, 116, 115, 47]
  const PROC_FD: seq<byte> := [47, 112, 114, 111, 99, 47, 115, 101, 108, 102, 47, 102, 100, 47]

  /** The decimal numeral of `n`, most significant digit first. */
  function Digits(n: nat): (s: seq<byte>)
    ensures |s| >= 1 && forall d | d in s :: ZERO <= d <= ZERO + 9
  {
    if n < 10 then [ZERO + n] else Digits(n / 10) + [ZERO + n % 10]
  }

  /** The number a string of ASCII digits stands for. */
  function Value(s: seq<byte>): int {
    if s == [] then 0 else 10 * Value(s[..|s| - 1]) + (s[|s| - 1] as int - '0' as int)
  }

  lemma {:induction false} ValueOfDigits(n: nat)
    ensures Value(Digits(n)) == n
  {
    var s := Digits(n);
    if n < 10 {
      assert s[..|s| - 1] == [];
    } else {
      ValueOfDigits(n / 10);
      assert s[..|s| - 1] == Digits(n / 10);
    }
  }

  lemma {:induction false} NoLeadingZero(n: nat)
    requires n > 0
    ensures Digits(n)[0] != ZERO
  {
    if n >= 10 {
      NoLeadingZero(n / 10);
    }
  }

  function Pow10(k: nat): nat {
    if k == 0 then 1 else 10 * Pow10(k - 1)
  }

  lemma {:induction false} DigitCount(n: nat, k: nat)
    requires k >= 1 && n < Pow10(k)
    ensures |Digits(n)| <= k
  {
    if n >= 10 {
      assert k > 1;
      DigitCount(n / 10, k - 1);
    }
  }

  /** Ten digits hold every unsigned 32-bit number. */
  lemma TenDigits(n: u32)
    ensures |Digits(n)| <= 10
  {
    assert Pow10(10) == 10_000_000_000;
    DigitCount(n, 10);
  }

  function Reversed(s: seq<byte>): (r: seq<byte>)
    ensures |r| == |s|
  {
    if s == [] then [] else Reversed(s[1..]) + [s[0]]
  }

  lemma {:induction false} ReversedAt(s: seq<byte>, k: nat)
    requires k < |s|
    ensures Reversed(s)[k] == s[|s| - 1 - k]
    decreases |s|
  {
    if k < |s| - 1 {
      ReversedAt(s[1..], k);
    }
  }

  /** The digits in the order the loop produces them. */
  function Backwards(n: nat): (s: seq<byte>) {
    if n < 10 then [ZERO + n] else [ZERO + n % 10] + Backwards(n / 10)
  }

  lemma {:induction false} ReversedBackwards(n: nat)
    ensures Reversed(Backwards(n)) == Digits(n)
  {
    if n >= 10 {
      ReversedBackwards(n / 10);
      assert Backwards(n)[1..] == Backwards(n / 10);
    } else {
      assert Backwards(n)[1..] == [];
    }
  }

  /** `a[lo..hi].reverse()`. */
  method Reverse(a: array<byte>, lo: nat, hi: nat)
    requires lo <= hi <= a.Length
    modifies a
    ensures a[lo..hi] == Reversed(old(a[lo..hi]))
    ensures forall i | 0 <= i < lo || hi <= i < a.Length :: a[i] == old(a[i])
  {
    var l, r := lo, hi;
    while l + 1 < r
      invariant lo <= l <= r + 1 && r <= hi && l + r == lo + hi
      invariant forall i | 0 <= i < lo || hi <= i < a.Length :: a[i] == old(a[i])
      invariant forall i | lo <= i < l || r <= i < hi :: a[i] == old(a[lo + hi - 1 - i])
      invariant forall i | l <= i < r :: a[i] == old(a[i])
    {
      a[l], a[r - 1] := a[r - 1], a[l];
      l, r := l + 1, r - 1;
    }
    ghost var now, was := a[lo..hi], old(a[lo..hi]);
    forall i | 0 <= i < |now| ensures now[i] == was[|was| - 1 - i] {
      assert now[i] == a[lo + i] && was[|was| - 1 - i] == old(a[lo + hi - 1 - (lo + i)]);
    }
    Mirrored(now, was);
  }

  lemma Mirrored(now: seq<byte>, was: seq<byte>)
    requires |now| == |was| && forall i | 0 <= i < |now| :: now[i] == was[|was| - 1 - i]
    ensures now == Reversed(was)
  {
    forall i | 0 <= i < |now| ensures now[i] == Reversed(was)[i] {
      ReversedAt(was, i);
    }
  }

  /** One digit moves from the number to the output. */
  lemma DigitMoves(done: seq<byte>, n: nat)
    ensures done + Backwards(n)
         == if n < 10 then done + [ZERO + n % 10] else (done + [ZERO + n % 10]) + Backwards(n / 10)
  {
    if n >= 10 {
      Associative(done, [ZERO + n % 10], Backwards(n / 10));
    }
  }

  /** The digit loop of both printers: least significant digit first. */
  method PutBackwards(a: array<byte>, start: nat, value: nat) returns (pos: nat)
    requires start + |Backwards(value)| <= a.Length
    modifies a
    ensures start <= pos <= a.Length && a[start..pos] == Backwards(value)
    ensures forall i | 0 <= i < start || pos <= i < a.Length :: a[i] == old(a[i])
  {
    var n := value;
    pos := start;
    while true
      invariant start <= pos && pos + |Backwards(n)| <= a.Length
      invariant a[start..pos] + Backwards(n) == Backwards(value)
      invariant forall i | 0 <= i < start || pos <= i < a.Length :: a[i] == old(a[i])
      decreases n
    {
      DigitMoves(a[start..pos], n);
      ghost var done := a[start..pos] + [ZERO + n % 10];
      a[pos] := ZERO + n % 10;
      pos := pos + 1;
      assert a[start..pos] == done;
      if n < 10 {
        break;
      }
      n := n / 10;
    }
  }

  /** The loop with the reversal after it. */
  method PutDigits(a: array<byte>, start: nat, value: u32) returns (pos: nat)
    requires start + 10 <= a.Length
    modifies a
    ensures pos == start + |Digits(value)| <= start + 10 && a[start..pos] == Digits(value)
    ensures forall i | 0 <= i < start || pos <= i < a.Length :: a[i] == old(a[i])
  {
    TenDigits(value);
    ReversedBackwards(value);
    pos := PutBackwards(a, start, value);
    Reverse(a, start, pos);
  }

  method PutBytes(a: array<byte>, start: nat, bytes: seq<byte>)
    requires start + |bytes| <= a.Length
    modifies a
    ensures a[start..start + |bytes|] == bytes
    ensures forall i | 0 <= i < start || start + |bytes| <= i < a.Length :: a[i] == old(a[i])
  {
    forall i | start <= i < start + |bytes| {
      a[i] := bytes[i - start];
    }
  }

  /** The path of pty `ptn`, its number read as unsigned. */
  function PtsPath(ptn: i32): (s: seq<byte>) {
    DEV_PTS + Digits(AsU32(ptn))
  }

  function Magnitude(fd: i32): u32 {
    var v: int := fd;
    if v < 0 then -v else v
  }

  /** The `/proc` path of descriptor `fd`, negative ones included. */
  function ProcPath(fd: i32): (s: seq<byte>) {
    PROC_FD + (if fd < 0 then [MINUS] else []) + Digits(Magnitude(fd))
  }

  /** `format_pts_path`: the NUL-terminated path, in the front of a 21-byte buffer. */
  method FormatPtsPath(ptn: i32, buf: array<byte>) returns (end: nat)
    requires buf.Length == 21
    modifies buf
    ensures end <= 19 && buf[..end] == PtsPath(ptn) && buf[end] == 0
    ensures forall i | end < i < 21 :: buf[i] == old(buf[i])
  {
    PutBytes(buf, 0, DEV_PTS);
    var digits := new byte[10](_ => 0);
    var len := PutDigits(digits, 0, AsU32(ptn));
    end := |DEV_PTS| + len;
    PutBytes(buf, |DEV_PTS|, digits[..len]);
    assert buf[..|DEV_PTS|] == DEV_PTS;
    buf[end] := 0;
    assert buf[..end] == buf[..|DEV_PTS|] + buf[|DEV_PTS|..end];
  }

  /** `proc_fd_path`: the NUL-terminated path, in the front of a 32-byte buffer. */
  method ProcFdPath(fd: i32, out: array<byte>) returns (pos: nat)
    requires out.Length == 32
    modifies out
    ensures pos <= 25 && out[..pos] == ProcPath(fd) && out[pos] == 0
    ensures forall i | pos < i < 32 :: out[i] == old(out[i])
  {
    PutBytes(out, 0, PROC_FD);
    pos := |PROC_FD|;
    if fd < 0 {
      out[pos] := MINUS;
      pos := pos + 1;
    }
    var start := pos;
    assert out[..start] == PROC_FD + (if fd < 0 then [MINUS] else []);
    pos := PutDigits(out, start, Magnitude(fd));
    assert out[..pos] == out[..start] + out[start..pos];
    out[pos] := 0;
  }

  lemma Prefixes()
    ensures DEV_PTS == Ascii("/dev/pts/") && PROC_FD == Ascii("/proc/self/fd/")
  {
    SameBytes(DEV_PTS, "/dev/pts/");
    SameBytes(PROC_FD, "/proc/self/fd/");
  }

  lemma SameBytes(b: seq<byte>, s: string)
    requires |b| == |s| && forall i | 0 <= i < |s| :: b[i] == s[i] as int % 0x80
    ensures b == Ascii(s)
  {
  }

  /** What a path reads as: the directory, then the number in decimal. */
  lemma PtsPathReads(v: i32)
    ensures DEV_PTS <= PtsPath(v) && Value(PtsPath(v)[|DEV_PTS|..]) == if v < 0 then v + 0x1_0000_0000 else v
  {
    ValueOfDigits(AsU32(v));
    assert PtsPath(v)[|DEV_PTS|..] == Digits(AsU32(v));
  }

  lemma ProcPathReads(v: i32)
    ensures PROC_FD <= ProcPath(v)
    ensures var s := ProcPath(v)[|PROC_FD|..];
            if v >= 0 then Value(s) == v else |s| > 0 && s[0] == '-' as int && Value(s[1..]) == 0 - v as int
  {
    ValueOfDigits(Magnitude(v));
    SignAndDigits(v);
    var s := ProcPath(v)[|PROC_FD|..];
    assert s[0..] == s;
  }

  /** Different ptys have different paths, none of which holds a NUL or a leading zero. */
  lemma PtsPathFaithful(p: i32, q: i32)
    ensures PtsPath(p) == PtsPath(q) ==> p == q
    ensures 0 !in PtsPath(p)
    ensures AsU32(p) > 0 ==> PtsPath(p)[|DEV_PTS|] != ZERO
  {
    ValueOfDigits(AsU32(p));
    ValueOfDigits(AsU32(q));
    assert PtsPath(p)[|DEV_PTS|..] == Digits(AsU32(p)) && PtsPath(q)[|DEV_PTS|..] == Digits(AsU32(q));
    if AsU32(p) > 0 {
      NoLeadingZero(AsU32(p));
    }
  }

  /** The same for descriptors, over all of i32 including its minimum: no zero leads, behind the
      sign either. */
  lemma ProcPathFaithful(p: i32, q: i32)
    ensures ProcPath(p) == ProcPath(q) ==> p == q
    ensures 0 !in ProcPath(p)
    ensures p != 0 ==> ProcPath(p)[|PROC_FD| + if p < 0 then 1 else 0] != ZERO
  {
    ValueOfDigits(Magnitude(p));
    ValueOfDigits(Magnitude(q));
    SignAndDigits(p);
    SignAndDigits(q);
    if p != 0 {
      NoLeadingZero(Magnitude(p));
      assert ProcPath(p)[|PROC_FD|..][if p < 0 then 1 else 0..][0] == Digits(Magnitude(p))[0];
    }
  }

  /** Behind the prefix, the sign if any and the digits. */
  lemma SignAndDigits(fd: i32)
    ensures var s := ProcPath(fd)[|PROC_FD|..];
            |s| > 0 && (s[0] == MINUS <==> fd < 0) && s[if fd < 0 then 1 else 0..] == Digits(Magnitude(fd))
  {
    var sign: seq<byte> := if fd < 0 then [MINUS] else [];
    var digits := Digits(Magnitude(fd));
    assert ProcPath(fd)[|PROC_FD|..] == sign + digits;
    assert digits[0] in digits;
  }
}
