// Bytes, machine words and NUL-terminated strings as the kernel reads them.
module Words {

  // A 64-bit machine word, bit by bit.
  type Word = bv64

  type Byte = b: int | 0 <= b < 256

  const WORD32: nat := 0x1_0000_0000
  const WORD64: nat := 0x1_0000_0000_0000_0000

  // 64-bit arithmetic wraps around.
  function Wrap64(x: int): (r: nat)
    ensures r < WORD64
    decreases x < 0, if x < 0 then -x else x
  {
    if x < 0 then Wrap64(x + WORD64) else if x >= WORD64 then Wrap64(x - WORD64) else x
  }

  lemma AddModulus(x: int)
    ensures (x + 0x1_0000_0000_0000_0000) % 0x1_0000_0000_0000_0000 == x % 0x1_0000_0000_0000_0000
  {
  }

  lemma InRange(x: int)
    requires 0 <= x < 0x1_0000_0000_0000_0000
    ensures x % 0x1_0000_0000_0000_0000 == x
  {
  }

  lemma {:induction false} WrapIsResidue(x: int)
    ensures Wrap64(x) == x % 0x1_0000_0000_0000_0000
    decreases x < 0, if x < 0 then -x else x
  {
    if x < 0 {
      WrapIsResidue(x + WORD64);
      AddModulus(x);
    } else if x >= WORD64 {
      WrapIsResidue(x - WORD64);
      AddModulus(x - WORD64);
    } else {
      InRange(x);
    }
  }

  datatype Option<+T> = None | Some(value: T)

  // Four base-256 digits, least significant first.
  function FromDigits(d0: int, d1: int, d2: int, d3: int): (r: int) {
    d0 + d1 * 0x100 + d2 * 0x1_0000 + d3 * 0x100_0000
  }

  // A 32-bit load on the little-endian CPU.
  function Load32(m: seq<Byte>, at: nat): (w: nat)
    requires at + 4 <= |m|
    ensures w < WORD32
  {
    FromDigits(m[at], m[at + 1], m[at + 2], m[at + 3])
  }

  // The n lowest bytes of w, moved to the right of acc one after the other.
  function MoveBytes(w: nat, n: nat, acc: nat): (r: nat) {
    if n == 0 then acc else MoveBytes(w / 256, n - 1, acc * 256 + w % 256)
  }

  // __builtin_bswap32
  function Bswap32(w: nat): (r: nat)
    requires w < WORD32
    ensures r < WORD32
  {
    SwappedDigits(w);
    MoveBytes(w, 4, 0)
  }

  lemma SwappedDigits(w: nat)
    ensures MoveBytes(w, 4, 0) == FromDigits(w / 256 / 256 / 256 % 256, w / 256 / 256 % 256, w / 256 % 256, w % 256)
    ensures MoveBytes(w, 4, 0) < WORD32
  {
    var a, b, c := w / 256, w / 256 / 256, w / 256 / 256 / 256;
    var x := w % 256;
    var y := x * 256 + a % 256;
    var z := y * 256 + b % 256;
    assert MoveBytes(c, 1, z) == MoveBytes(c / 256, 0, z * 256 + c % 256);
    assert MoveBytes(b, 2, y) == MoveBytes(c, 1, z);
    assert MoveBytes(a, 3, x) == MoveBytes(b, 2, y);
  }

  // A 32-bit big-endian word.
  function Read32(m: seq<Byte>, at: nat): (w: nat)
    requires at + 4 <= |m|
    ensures w < WORD32
  {
    FromDigits(m[at + 3], m[at + 2], m[at + 1], m[at])
  }

  // The n lowest bytes of w, most significant first.
  function BytesOf(w: nat, n: nat): (s: seq<Byte>)
    ensures |s| == n
    decreases n
  {
    if n == 0 then [] else BytesOf(w / 256, n - 1) + [w % 256]
  }

  // The big-endian spelling of a 32-bit word.
  function Be32(w: nat): (s: seq<Byte>)
    ensures |s| == 4
  {
    BytesOf(w, 4)
  }

  lemma Be32Digits(w: nat)
    ensures Be32(w) == [w / 256 / 256 / 256 % 256, w / 256 / 256 % 256, w / 256 % 256, w % 256]
  {
    var a, b, c := w / 256, w / 256 / 256, w / 256 / 256 / 256;
    assert BytesOf(c, 1) == BytesOf(c / 256, 0) + [c % 256] == [c % 256];
    assert BytesOf(b, 2) == BytesOf(c, 1) + [b % 256];
    assert BytesOf(a, 3) == BytesOf(b, 2) + [a % 256];
  }

  lemma WordDigits(d0: int, d1: int, d2: int, d3: int)
    requires 0 <= d0 < 256 && 0 <= d1 < 256 && 0 <= d2 < 256 && 0 <= d3 < 256
    ensures var w := FromDigits(d0, d1, d2, d3);
            w % 256 == d0 && w / 256 % 256 == d1 && w / 256 / 256 % 256 == d2 && w / 256 / 256 / 256 == d3
  {
    var w := FromDigits(d0, d1, d2, d3);
    Digit(w, d0, d1 + 256 * d2 + 0x1_0000 * d3);
    Digit(w / 256, d1, d2 + 256 * d3);
    Digit(w / 256 / 256, d2, d3);
  }

  lemma Digit(w: int, d: int, rest: int)
    requires 0 <= d < 256 && w == d + 256 * rest
    ensures w % 256 == d && w / 256 == rest
  {
  }

  // The spelling of a word given by its digits.
  lemma Be32Is(w: nat, a: Byte, b: Byte, c: Byte, d: Byte)
    requires w == 0x100_0000 * a + 0x1_0000 * b + 0x100 * c + d
    ensures Be32(w) == [a, b, c, d]
  {
    hide Be32;
    WordDigits(d, c, b, a);
    Be32Digits(w);
  }

  // Every word is put together from its digits.
  lemma WordOfDigits(w: nat)
    requires w < WORD32
    ensures w == FromDigits(w % 256, w / 256 % 256, w / 256 / 256 % 256, w / 256 / 256 / 256 % 256)
  {
    var a, b, c := w / 256, w / 256 / 256, w / 256 / 256 / 256;
    assert w == a * 256 + w % 256;
    assert a == b * 256 + a % 256;
    assert b == c * 256 + b % 256;
    assert 0 <= c < 256;
  }

  // fdt_Read32 is a big-endian read: a little-endian load followed by the byte swap.
  lemma SwapOfLoad(m: seq<Byte>, at: nat)
    requires at + 4 <= |m|
    ensures Bswap32(Load32(m, at)) == Read32(m, at)
  {
    WordDigits(m[at], m[at + 1], m[at + 2], m[at + 3]);
    SwappedDigits(Load32(m, at));
  }

  lemma Read32OfBe32(m: seq<Byte>, at: nat, w: nat)
    requires at + 4 <= |m| && m[at..at + 4] == Be32(w) && w < WORD32
    ensures Read32(m, at) == w
  {
    hide Be32;
    Be32Digits(w);
    var s := m[at..at + 4];
    assert m[at] == s[0] && m[at + 1] == s[1] && m[at + 2] == s[2] && m[at + 3] == s[3];
    WordOfDigits(w);
  }

  // The NUL-terminated string at `at` is s: its bytes lie there, a NUL follows, and s holds none.
  predicate CStrAt(m: seq<Byte>, at: nat, s: seq<Byte>) {
    && at + |s| < |m|
    && m[at..at + |s|] == s
    && m[at + |s|] == 0
    && 0 !in s
  }

  // strlen as a search: no value when no NUL is met inside the memory.
  function StrLen(m: seq<Byte>, at: nat): (r: Option<nat>)
    ensures r.Some? ==> at + r.value < |m|
    decreases |m| - at
  {
    if at >= |m| then None
    else if m[at] == 0 then Some(0)
    else match StrLen(m, at + 1)
      case None => None
      case Some(n) => Some(n + 1)
  }

  // The length found is that of the string there, and without one there is no NUL at all.
  lemma {:induction false} StrLenMeans(m: seq<Byte>, at: nat)
    ensures match StrLen(m, at)
            case Some(n) => CStrAt(m, at, m[at..at + n])
            case None => forall k | at <= k < |m| :: m[k] != 0
    decreases |m| - at
  {
    if at < |m| && m[at] != 0 {
      StrLenMeans(m, at + 1);
      var r := StrLen(m, at + 1);
      if r.Some? { assert m[at..at + (r.value + 1)] == [m[at]] + m[at + 1..at + 1 + r.value]; }
    }
  }

  lemma {:induction false} StrLenOf(m: seq<Byte>, at: nat, s: seq<Byte>)
    requires CStrAt(m, at, s)
    ensures StrLen(m, at) == Some(|s|)
    decreases |s|
  {
    if s != [] {
      assert m[at] == s[0];
      assert m[at + 1..at + 1 + |s[1..]|] == s[1..];
      StrLenOf(m, at + 1, s[1..]);
    }
  }

  lemma CStrUnique(m: seq<Byte>, at: nat, s: seq<Byte>, t: seq<Byte>)
    requires CStrAt(m, at, s) && CStrAt(m, at, t)
    ensures s == t
  {
    StrLenOf(m, at, s);
    StrLenOf(m, at, t);
  }

  // ---- strcmp ----

  // No value when a string runs past its memory.
  function StrCmp(m: seq<Byte>, i: nat, n: seq<Byte>, j: nat): (r: Option<int>)
    decreases |m| - i
  {
    if i >= |m| || j >= |n| then None
    else if m[i] != 0 && m[i] == n[j] then StrCmp(m, i + 1, n, j + 1)
    else Some(Difference(m[i], n[j]))
  }

  function Difference(a: int, b: int): (r: int) {
    a - b
  }

  // The difference of the first bytes that differ or end the first string; no value exactly when a
  // memory ends before them.
  lemma {:induction false} StrCmpMeans(m: seq<Byte>, i: nat, n: seq<Byte>, j: nat) returns (k: nat)
    requires i <= |m| && j <= |n|
    ensures i + k <= |m| && j + k <= |n| && m[i..i + k] == n[j..j + k] && 0 !in m[i..i + k]
    ensures match StrCmp(m, i, n, j)
            case None => i + k == |m| || j + k == |n|
            case Some(c) =>
              && i + k < |m| && j + k < |n| && (m[i + k] == 0 || m[i + k] != n[j + k])
              && c == m[i + k] as int - n[j + k] as int
    decreases |m| - i
  {
    k := 0;
    if i < |m| && j < |n| && m[i] != 0 && m[i] == n[j] {
      k := StrCmpMeans(m, i + 1, n, j + 1);
      k := k + 1;
      assert m[i..i + k] == [m[i]] + m[i + 1..i + k] && n[j..j + k] == [n[j]] + n[j + 1..j + k];
    }
  }

  // Zero means the same string, for any two strings.
  lemma {:induction false} StrCmpZero(m: seq<Byte>, i: nat, s: seq<Byte>, n: seq<Byte>, j: nat, t: seq<Byte>)
    requires CStrAt(m, i, s) && CStrAt(n, j, t)
    ensures StrCmp(m, i, n, j).Some? && (StrCmp(m, i, n, j).value == 0 <==> s == t)
    decreases |s|
  {
    if s != [] {
      assert m[i] == s[0] && s[0] in s;
      if t != [] {
        assert n[j] == t[0] && t[0] in t;
        if s[0] == t[0] {
          assert m[i + 1..i + 1 + |s[1..]|] == s[1..] && n[j + 1..j + 1 + |t[1..]|] == t[1..];
          StrCmpZero(m, i + 1, s[1..], n, j + 1, t[1..]);
          assert s == [s[0]] + s[1..] && t == [t[0]] + t[1..];
        }
      }
    } else if t != [] {
      assert n[j] == t[0] && t[0] in t;
    }
  }
}
