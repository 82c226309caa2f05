// The string routines the parser calls (kernel/kstdlib/string.c), loop by loop.
module KernelString {
  import opened Words

  function After(count: nat, r: Option<nat>): (result: Option<nat>) {
    match r case None => None case Some(n) => Some(count + n)
  }

  // Runs off the memory only when no NUL follows; no value stands for that.
  method Length(m: seq<Byte>, at: nat) returns (r: Option<nat>)
    ensures r == StrLen(m, at)
  {
    hide CStrAt;
    var count := 0;
    while at + count < |m| && m[at + count] != 0
      invariant StrLen(m, at) == After(count, StrLen(m, at + count))
      decreases |m| - (at + count)
    {
      count := count + 1;
    }
    r := if at + count < |m| then Some(count) else None;
  }

  method Compare(m: seq<Byte>, i: nat, n: seq<Byte>, j: nat) returns (r: Option<int>)
    ensures r == StrCmp(m, i, n, j)
  {
    var index := 0;
    while i + index < |m| && j + index < |n| && m[i + index] != 0 && m[i + index] == n[j + index]
      invariant StrCmp(m, i, n, j) == StrCmp(m, i + index, n, j + index)
      decreases |m| - (i + index)
    {
      index := index + 1;
    }
    r := if i + index < |m| && j + index < |n| then Some(Difference(m[i + index], n[j + index])) else None;
  }

  method Copy(dst: array<Byte>, m: seq<Byte>, at: nat, n: nat)
    requires n <= dst.Length && at + n <= |m|
    modifies dst
    ensures dst[..n] == m[at..at + n] && dst[n..] == old(dst[n..])
  {
    var i := 0;
    while i < n
      invariant i <= n && dst[..i] == m[at..at + i] && dst[n..] == old(dst[n..])
    {
      dst[i] := m[at + i];
      i := i + 1;
    }
  }

  // fdt_Read32: copy four bytes into a local word, then swap them.
  method ReadWord(m: seq<Byte>, at: nat) returns (w: nat)
    requires at + 4 <= |m|
    ensures w == Read32(m, at)
  {
    var word := new Byte[4];
    Copy(word, m, at, 4);
    assert word[..4] == word[..] == m[at..at + 4];
    w := Bswap32(Load32(word[..], 0));
    SwapOfLoad(word[..], 0);
    assert forall k | 0 <= k < 4 :: word[..][k] == m[at + k];
  }
}
