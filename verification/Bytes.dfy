/** Bytes and little-endian words, shared by the components that work on raw memory. */
module Bytes {
  type byte = b: int | 0 <= b < 256

  function Pow256(n: nat): (p: nat)
    ensures p > 0
  {
    if n == 0 then 1 else 256 * Pow256(n - 1)
  }

  function Put(x: nat, n: nat): (s: seq<byte>)
    ensures |s| == n
    decreases n, x
  {
    if n == 0 then [] else [(x % 256) as byte] + Put(x / 256, n - 1)
  }

  function Get(s: seq<byte>): (x: nat)
    ensures x < Pow256(|s|)
  {
    if s == [] then 0 else s[0] as int + 256 * Get(s[1..])
  }

  lemma {:induction false} GetPut(x: nat, n: nat)
    requires x < Pow256(n)
    ensures Get(Put(x, n)) == x
  {
    if n > 0 {
      GetPut(x / 256, n - 1);
      assert Put(x, n)[1..] == Put(x / 256, n - 1);
    }
  }

  lemma {:induction false} DivMod(b: byte, y: nat)
    ensures (b as int + 256 * y) % 256 == b && (b as int + 256 * y) / 256 == y
  {
  }

  lemma {:induction false} PutGet(s: seq<byte>)
    ensures Put(Get(s), |s|) == s
  {
    if s != [] {
      PutGet(s[1..]);
      DivMod(s[0], Get(s[1..]));
    }
  }
}
