/** The LZSS decoder (libkern/mkext.c).

    The decoder keeps the last 4096 bytes in a ring.  The reference keeps everything:
    a history that starts with the ring's 18 uninitialised cells and 4078 spaces and
    grows by the output.  A match copies from a fixed distance back in that history. */
module LzssDecode {
  import opened Bytes

  const N := 4096
  const F := 18
  const THRESHOLD := 2

  // ----- The reference ------------------------------------------------------------------

  datatype Token = Lit(b: byte) | Match(pos: nat, len: nat)

  /** The tokens that fit the format: a position in the ring and a length of 3 to 18. */
  predicate Fits(t: Token) { t.Match? ==> t.pos < N && THRESHOLD < t.len <= F }

  /** The two bytes of a match: twelve bits of position, four of length. */
  function MatchOf(i: byte, j: byte): (t: Token)
    ensures t.Match? && Fits(t)
  {
    Match(i as int + 256 * (j as int / 16), j as int % 16 + THRESHOLD + 1)
  }

  function TokenBytes(t: Token): (bs: seq<byte>)
    requires Fits(t)
    ensures t.Lit? ==> bs == [t.b]
    ensures t.Match? ==> |bs| == 2 && MatchOf(bs[0], bs[1]) == t
  {
    match t
    case Lit(b) => [b]
    case Match(pos, len) =>
      var lo: byte, hi: byte := pos % 256, pos / 256 * 16 + (len - THRESHOLD - 1);
      [lo, hi]
  }

  /** Two bytes are the match they stand for, and no other two bytes are. */
  lemma {:induction false} MatchExact(i: byte, j: byte, k: byte, l: byte)
    ensures TokenBytes(MatchOf(i, j)) == [i, j]
    ensures MatchOf(i, j) == MatchOf(k, l) <==> i == k && j == l
  {
    var t := MatchOf(i, j);
    assert t.pos % 256 == i && t.pos / 256 == j as int / 16;
    assert t.pos / 256 * 16 + (t.len - THRESHOLD - 1) == j;
  }

  /** The flags of a flag byte, lowest bit first; a set bit announces a literal. */
  function Bits(c: byte): (bs: seq<bool>)
    ensures |bs| == 8
  {
    seq(8, i requires 0 <= i < 8 => FlagsLeft(c, i) % 2 == 1)
  }

  /** What is left of a flag byte after `n` shifts. */
  function FlagsLeft(c: byte, n: nat): nat { if n == 0 then c as int else FlagsLeft(c, n - 1) / 2 }

  /** The tokens of `src`, with the flags `bits` not yet used.  Eight tokens share a flag byte.
      Input that ends early ends the list. */
  function Parse(bits: seq<bool>, src: seq<byte>): (ts: seq<Token>)
    ensures forall t <- ts :: Fits(t)
    decreases |src|
  {
    if bits == [] then
      if src == [] then [] else Parse(Bits(src[0]), src[1..])
    else if bits[0] then
      if src == [] then [] else [Lit(src[0])] + Parse(bits[1..], src[1..])
    else
      if |src| < 2 then [] else [MatchOf(src[0], src[1])] + Parse(bits[1..], src[2..])
  }

  /** The ring cell of a position counted without wrapping: `k & (N - 1)`. */
  function Cell(k: nat): (j: nat)
    ensures j < N
  {
    if k < N then k else Cell(k - N)
  }

  lemma {:induction false} CellMod(k: nat)
    ensures Cell(k) == k % N
  {
    if k >= N { CellMod(k - N); }
  }

  /** The cell that the byte after a history of length `n` goes to. */
  function WriteCell(n: nat): nat { Cell(n + N - F) }

  /** How far back in a history of length `n` the ring position `pos` lies: 1 to N. */
  function Distance(n: nat, pos: nat): (d: nat)
    ensures 1 <= d <= N
  {
    var r, i := WriteCell(n), Cell(pos);
    if i < r then r - i else r - i + N
  }

  /** Append `len` bytes, each from `d` back; the copy may run into its own output. */
  function Copy(hist: seq<byte>, d: nat, len: nat): seq<byte>
    requires 1 <= d <= |hist|
    decreases len
  {
    if len == 0 then hist else Copy(hist + [hist[|hist| - d]], d, len - 1)
  }

  /** What such a copy is: a continuation of the history with period `d`. */
  ghost predicate Repeats(hist: seq<byte>, d: nat, all: seq<byte>) {
    1 <= d <= |hist| && hist <= all && forall k :: |hist| <= k < |all| ==> all[k] == all[k - d]
  }

  lemma {:induction false} CopyRepeats(hist: seq<byte>, d: nat, len: nat)
    requires 1 <= d <= |hist|
    ensures Repeats(hist, d, Copy(hist, d, len)) && |Copy(hist, d, len)| == |hist| + len
    decreases len
  {
    if len > 0 {
      var h := hist + [hist[|hist| - d]];
      CopyRepeats(h, d, len - 1);
      assert Copy(hist, d, len) == Copy(h, d, len - 1);
      assert Copy(h, d, len - 1)[|hist|] == h[|hist|];
    }
  }

  function Expand(hist: seq<byte>, ts: seq<Token>): seq<byte>
    requires |hist| >= N
    decreases |ts|
  {
    if ts == [] then hist else
      var t := ts[0];
      if t.Lit? then Expand(hist + [t.b], ts[1..]) else
        CopyRepeats(hist, Distance(|hist|, t.pos), t.len);
        Expand(Copy(hist, Distance(|hist|, t.pos), t.len), ts[1..])
  }

  lemma {:induction false} ExpandExtends(hist: seq<byte>, ts: seq<Token>)
    requires |hist| >= N
    ensures hist <= Expand(hist, ts)
    decreases |ts|
  {
    if ts != [] {
      var t := ts[0];
      if t.Lit? {
        ExpandExtends(hist + [t.b], ts[1..]);
      } else {
        CopyRepeats(hist, Distance(|hist|, t.pos), t.len);
        ExpandExtends(Copy(hist, Distance(|hist|, t.pos), t.len), ts[1..]);
      }
    }
  }

  /** The history before the first token: the cells the code leaves uninitialised, then spaces. */
  function Start(cells: seq<byte>): (h: seq<byte>)
    requires |cells| == F
    ensures |h| == N
  {
    cells + seq(N - F, _ => 32)
  }

  /** The bytes that a list of tokens stands for. */
  function Expanded(cells: seq<byte>, ts: seq<Token>): seq<byte>
    requires |cells| == F
  {
    ExpandExtends(Start(cells), ts);
    Expand(Start(cells), ts)[N..]
  }

  /** All the bytes that `src` stands for. */
  function Decoded(cells: seq<byte>, src: seq<byte>): seq<byte>
    requires |cells| == F
  {
    Expanded(cells, Parse([], src))
  }

  // ----- Packing ------------------------------------------------------------------------

  /** The flag byte of up to eight tokens. */
  function Flags(ts: seq<Token>): (c: nat)
    ensures |ts| <= 8 ==> c < Pow2(|ts|) <= 256
  {
    if ts == [] then 0 else
      assert Pow2(8) == 256;
      PowMonotone(|ts|, 8);
      (if ts[0].Lit? then 1 else 0) + 2 * Flags(ts[1..])
  }

  function Pow2(m: nat): (p: nat)
    ensures p > 0
  {
    if m == 0 then 1 else 2 * Pow2(m - 1)
  }

  lemma {:induction false} PowMonotone(m: nat, n: nat)
    ensures m <= n ==> Pow2(m) <= Pow2(n)
    decreases n
  {
    if m < n { PowMonotone(m, n - 1); }
  }

  function Payload(ts: seq<Token>): seq<byte>
    requires forall t <- ts :: Fits(t)
  {
    if ts == [] then [] else TokenBytes(ts[0]) + Payload(ts[1..])
  }

  function Pack(ts: seq<Token>): seq<byte>
    requires forall t <- ts :: Fits(t)
  {
    if ts == [] then [] else
      var n := if |ts| < 8 then |ts| else 8;
      [Flags(ts[..n])] + Payload(ts[..n]) + Pack(ts[n..])
  }

  /** The flags of a packed group say which tokens are literals; unused ones are clear. */
  lemma {:induction false} FlagsBits(ts: seq<Token>, n: nat)
    requires |ts| <= 8
    ensures FlagsLeft(Flags(ts), n) % 2 == 1 <==> n < |ts| && ts[n].Lit?
  {
    if ts == [] {
      ZeroLeft(n);
    } else if n > 0 {
      FlagsBits(ts[1..], n - 1);
      ShiftFirst(Flags(ts), n);
    }
  }

  lemma {:induction false} GroupBits(ts: seq<Token>)
    requires |ts| <= 8
    ensures forall i :: 0 <= i < 8 ==> (Bits(Flags(ts))[i] <==> i < |ts| && ts[i].Lit?)
  {
    forall i | 0 <= i < 8 ensures Bits(Flags(ts))[i] <==> i < |ts| && ts[i].Lit? { FlagsBits(ts, i); }
  }

  lemma {:induction false} ZeroLeft(n: nat)
    ensures FlagsLeft(0, n) == 0
  {
    if n > 0 { ZeroLeft(n - 1); }
  }

  lemma {:induction false} ShiftFirst(c: byte, n: nat)
    requires n > 0
    ensures FlagsLeft(c, n) == FlagsLeft(c / 2, n - 1)
  {
    if n > 1 { ShiftFirst(c, n - 1); }
  }

  lemma {:induction false} Associative<T>(a: seq<T>, b: seq<T>, c: seq<T>)
    ensures a + (b + c) == a + b + c
  {
  }

  lemma {:induction false} ParseOne(t: Token, bits: seq<bool>, tail: seq<byte>)
    requires Fits(t) && bits != [] && bits[0] == t.Lit?
    ensures Parse(bits, TokenBytes(t) + tail) == [t] + Parse(bits[1..], tail)
  {
    assert (TokenBytes(t) + tail)[|TokenBytes(t)|..] == tail;
  }

  lemma {:induction false} ParseGroup(ts: seq<Token>, bits: seq<bool>, tail: seq<byte>)
    requires |ts| <= |bits| && forall t <- ts :: Fits(t)
    requires forall i :: 0 <= i < |ts| ==> bits[i] == ts[i].Lit?
    ensures Parse(bits, Payload(ts) + tail) == ts + Parse(bits[|ts|..], tail)
  {
    if ts == [] {
      assert Payload(ts) + tail == tail && bits[0..] == bits;
    } else {
      var rest := ts[1..];
      ParseGroup(rest, bits[1..], tail);
      ParseOne(ts[0], bits, Payload(rest) + tail);
      Associative(TokenBytes(ts[0]), Payload(rest), tail);
      assert bits[1..][|rest|..] == bits[|ts|..];
      Associative([ts[0]], rest, Parse(bits[|ts|..], tail));
      assert [ts[0]] + rest == ts;
    }
  }

  /** Reading back what was packed. */
  lemma {:induction false} ParsePack(ts: seq<Token>)
    requires forall t <- ts :: Fits(t)
    ensures Parse([], Pack(ts)) == ts
    decreases |ts|
  {
    if ts != [] {
      var n := if |ts| < 8 then |ts| else 8;
      var g, rest := ts[..n], ts[n..];
      var c: byte := Flags(g);
      GroupBits(g);
      ParseGroup(g, Bits(c), Pack(rest));
      ParsePack(rest);
      Associative([c], Payload(g), Pack(rest));
      assert ([c] + (Payload(g) + Pack(rest)))[1..] == Payload(g) + Pack(rest);
      assert n < 8 ==> rest == [] && Parse(Bits(c)[n..], []) == [];
      assert n == 8 ==> Bits(c)[n..] == [];
      assert g + rest == ts;
    }
  }

  /** Decoding a packed token list yields exactly its expansion. */
  lemma {:induction false} DecodePack(cells: seq<byte>, ts: seq<Token>)
    requires |cells| == F && forall t <- ts :: Fits(t)
    ensures Decoded(cells, Pack(ts)) == Expanded(cells, ts)
  {
    ParsePack(ts);
  }

  // ----- The ring -----------------------------------------------------------------------

  /** The ring holds the latest N bytes of the history. */
  ghost predicate Ring(text: seq<byte>, hist: seq<byte>) {
    && |text| >= N && |hist| >= N
    && forall k :: |hist| - N <= k < |hist| ==> text[WriteCell(k)] == hist[k]
  }

  lemma {:induction false} RingPush(text: seq<byte>, hist: seq<byte>, c: byte)
    requires Ring(text, hist)
    ensures Ring(text[WriteCell(|hist|) := c], hist + [c])
  {
    var h := hist + [c];
    forall k | |h| - N <= k < |h| ensures text[WriteCell(|hist|) := c][WriteCell(k)] == h[k] {
      if k < |hist| { OtherCell(k + N - F, |hist| + N - F); }
    }
  }

  lemma {:induction false} OtherCell(j: nat, k: nat)
    requires j < k < j + N
    ensures Cell(j) != Cell(k)
  {
    CellMod(j);
    CellMod(k);
  }

  lemma {:induction false} NextCell(k: nat)
    ensures Cell(k + 1) == if Cell(k) + 1 == N then 0 else Cell(k) + 1
  {
    CellMod(k);
    CellMod(k + 1);
  }

  /** Going back `d` cells. */
  lemma {:induction false} BackCell(k: nat, d: nat)
    requires d <= k && d <= N
    ensures Cell(k - d) == if d <= Cell(k) then Cell(k) - d else if d == N then Cell(k) else Cell(k) - d + N
    decreases d
  {
    if d > 0 {
      BackCell(k, d - 1);
      NextCell(k - d);
    }
  }

  /** What the ring holds at a position is what the history holds at that distance. */
  lemma {:induction false} RingRead(text: seq<byte>, hist: seq<byte>, pos: nat)
    requires Ring(text, hist)
    ensures text[Cell(pos)] == hist[|hist| - Distance(|hist|, pos)]
  {
    BackCell(|hist| + N - F, Distance(|hist|, pos));
  }

  lemma {:induction false} DistanceShift(n: nat, pos: nat)
    ensures Distance(n + 1, pos + 1) == Distance(n, pos)
  {
    NextCell(n + N - F);
    NextCell(pos);
  }

  lemma {:induction false} RingStart(stack: seq<byte>, text: seq<byte>)
    requires |stack| == |text| == N + F - 1
    requires forall j :: 0 <= j < |text| ==> text[j] == if j < N - F then 32 else stack[j]
    ensures Ring(text, Start(stack[N - F..N])) && WriteCell(N) == N - F
  {
    CellMod(N + N - F);
    forall k | 0 <= k < N ensures text[WriteCell(k)] == Start(stack[N - F..N])[k] {
      CellMod(k + N - F);
    }
  }

  // ----- The format in numbers ----------------------------------------------------------

  /** The flags of a group, from the lowest bit of its flag byte to the highest. */
  lemma {:induction false} FlagOrder(c: byte)
    ensures Bits(c) == [c % 2 == 1, c / 2 % 2 == 1, c / 4 % 2 == 1, c / 8 % 2 == 1,
                        c / 16 % 2 == 1, c / 32 % 2 == 1, c / 64 % 2 == 1, c / 128 % 2 == 1]
  {
    Halves(c);
    FlagsHalved(c);
  }

  lemma {:induction false} Halves(c: nat)
    ensures c / 2 / 2 == c / 4 && c / 4 / 2 == c / 8 && c / 8 / 2 == c / 16 && c / 16 / 2 == c / 32
    ensures c / 32 / 2 == c / 64 && c / 64 / 2 == c / 128
  {
  }

  lemma {:induction false} FlagsHalved(c: byte)
    ensures FlagsLeft(c, 0) == c as int && FlagsLeft(c, 1) == c as int / 2 && FlagsLeft(c, 2) == c as int / 2 / 2
    ensures FlagsLeft(c, 3) == FlagsLeft(c, 2) / 2 && FlagsLeft(c, 4) == FlagsLeft(c, 3) / 2
    ensures FlagsLeft(c, 5) == FlagsLeft(c, 4) / 2 && FlagsLeft(c, 6) == FlagsLeft(c, 5) / 2
    ensures FlagsLeft(c, 7) == FlagsLeft(c, 6) / 2
  {
  }

  lemma {:induction false} DistanceMod(n: nat, pos: nat)
    requires n >= 4096
    ensures (n - Distance(n, pos) + 4078) % 4096 == pos % 4096
  {
    var d := Distance(n, pos);
    BackCell(n + N - F, d);
    CellMod(n + N - F - d);
    CellMod(pos);
  }

  lemma {:induction false} AddMod(a: nat, b: nat, k: nat)
    requires a % 4096 == b % 4096
    ensures (a + k) % 4096 == (b + k) % 4096
  {
  }

  lemma {:induction false} SameMod(a: nat, b: nat)
    requires a % 4096 == b % 4096 && a < b + 4096 && b < a + 4096
    ensures a == b
  {
  }

  /** The bytes `i`, `j` of a match add `j % 16 + 3` bytes.  The ring starts at cell 4078 and has 4096
      cells; each byte added is the latest one before it in its cell, where the cells are counted
      from `i + 256 * (j / 16)`. */
  lemma {:induction false} MatchBytes(hist: seq<byte>, i: byte, j: byte, k: nat, n: nat)
    requires |hist| >= 4096 && k < j as int % 16 + 3
    requires |hist| + k - 4096 <= n < |hist| + k && (n + 4078) % 4096 == (i as int + 256 * (j as int / 16) + k) % 4096
    ensures var all := Expand(hist, [MatchOf(i, j)]);
      |all| == |hist| + j as int % 16 + 3 && hist <= all && all[|hist| + k] == all[n]
  {
    var t := MatchOf(i, j);
    var d := Distance(|hist|, t.pos);
    CopyRepeats(hist, d, t.len);
    assert [t][1..] == [];
    assert Expand(hist, [t]) == Copy(hist, d, t.len);
    SourceIs(|hist|, t.pos, k, n);
  }

  lemma {:induction false} SourceIs(h: nat, pos: nat, k: nat, n: nat)
    requires h >= 4096 && h + k - 4096 <= n < h + k && (n + 4078) % 4096 == (pos + k) % 4096
    ensures n == h + k - Distance(h, pos)
  {
    var d := Distance(h, pos);
    DistanceMod(h, pos);
    AddMod(h - d + 4078, pos, k);
    SameMod(n + 4078, h - d + 4078 + k);
  }

  /** The byte at the k-th place of the first match: a space, an uninitialised cell, or a byte
      this match has already written there. */
  function FirstCopy(cells: seq<byte>, out: seq<byte>, cell: nat, k: nat): byte
    requires |cells| == 18 && cell < 4096 && k < 18 && k <= |out|
  {
    if cell < 4078 then 32 else if cell - 4078 < k then out[cell - 4078] else cells[cell - 4078]
  }

  /** Which byte of the history that is. */
  function FirstSource(cell: nat, k: nat): (n: nat)
    requires cell < 4096 && k < 18
    ensures k <= n < 4096 + k && (n + 4078) % 4096 == cell
  {
    if cell < 4078 then cell + 18 else if cell - 4078 < k then cell + 18 else cell - 4078
  }

  lemma {:induction false} OneMatchParse(i: byte, j: byte)
    ensures Parse([], [0, i, j]) == [MatchOf(i, j)]
  {
    FlagOrder(0);
    var bits := Bits(0);
    assert !bits[0];
    assert [0, i, j][1..] == [i, j] && [i, j][2..] == [];
    assert Parse(bits, [i, j]) == [MatchOf(i, j)] + Parse(bits[1..], []);
    assert Parse(bits[1..], []) == [];
  }

  lemma {:induction false} OneMatchByte(cells: seq<byte>, i: byte, j: byte, k: nat)
    requires |cells| == 18 && k < j as int % 16 + 3
    ensures var out := Decoded(cells, [0, i, j]);
      && |out| == j as int % 16 + 3
      && out[k] == FirstCopy(cells, out, (i as int + 256 * (j as int / 16) + k) % 4096, k)
  {
    OneMatchParse(i, j);
    var hist := Start(cells);
    var cell := (i as int + 256 * (j as int / 16) + k) % 4096;
    var n := FirstSource(cell, k);
    MatchBytes(hist, i, j, k, n);
    ExpandExtends(hist, [MatchOf(i, j)]);
  }

  /** A stream of one match, in numbers. */
  lemma {:induction false} OneMatch(cells: seq<byte>, i: byte, j: byte)
    requires |cells| == 18
    ensures var out := Decoded(cells, [0, i, j]);
      && |out| == j as int % 16 + 3
      && forall k :: 0 <= k < j as int % 16 + 3 ==>
           out[k] == FirstCopy(cells, out, (i as int + 256 * (j as int / 16) + k) % 4096, k)
  {
    OneMatchByte(cells, i, j, 0);
    forall k | 0 <= k < j as int % 16 + 3
      ensures var out := Decoded(cells, [0, i, j]);
        out[k] == FirstCopy(cells, out, (i as int + 256 * (j as int / 16) + k) % 4096, k)
    {
      OneMatchByte(cells, i, j, k);
    }
  }

  /** A set flag announces a literal. */
  lemma {:induction false} OneLiteral(cells: seq<byte>, b: byte)
    requires |cells| == 18
    ensures Decoded(cells, [1, b]) == [b]
  {
    FlagOrder(1);
    var bits := Bits(1);
    assert bits[0];
    assert [1, b][1..] == [b] && [b][1..] == [];
    assert Parse(bits, [b]) == [Lit(b)] + Parse(bits[1..], []);
    assert Parse([], [1, b]) == [Lit(b)];
    assert [Lit(b)][1..] == [];
    assert Expand(Start(cells), [Lit(b)]) == Start(cells) + [b];
  }

  // ----- The flag word ------------------------------------------------------------------

  /** The flag word of the code after `n` shifts of a new one, `c | 0xFF00`. */
  function FlagWord(c: byte, n: nat): nat { if n == 0 then c as int + 0xFF00 else FlagWord(c, n - 1) / 2 }

  /** Bit eight of the flag word counts to eight; its bit zero is the next flag. */
  lemma {:induction false} FlagBits(c: byte, n: nat)
    requires n <= 8
    ensures FlagWord(c, n) / 256 % 2 == 1 <==> n < 8
    ensures n < 8 ==> (FlagWord(c, n) % 2 == 1 <==> Bits(c)[n])
  {
    FlagSum(c, n);
    Pows();
    CountBit(n, Pow2(8 - n), FlagWord(c, n));
    if n < 8 { NextFlag(c, n); }
  }

  lemma {:induction false} Pows()
    ensures Pow2(0) == 1 && Pow2(1) == 2 && Pow2(2) == 4 && Pow2(3) == 8 && Pow2(4) == 16
    ensures Pow2(5) == 32 && Pow2(6) == 64 && Pow2(7) == 128 && Pow2(8) == 256
  {
  }

  lemma {:induction false} CountBit(n: nat, p: nat, w: nat)
    requires n <= 8 && 255 * p <= w < 256 * p
    requires p == if n == 0 then 256 else if n == 1 then 128 else if n == 2 then 64 else if n == 3 then 32
      else if n == 4 then 16
                  else if n == 5 then 8 else if n == 6 then 4 else if n == 7 then 2 else 1
    ensures w / 256 % 2 == 1 <==> n < 8
  {
    assert n < 8 ==> w / 256 == p - 1;
  }

  lemma {:induction false} NextFlag(c: byte, n: nat)
    requires n < 8 && FlagWord(c, n) == 255 * Pow2(8 - n) + FlagsLeft(c, n)
    ensures FlagWord(c, n) % 2 == 1 <==> Bits(c)[n]
  {
    assert Pow2(8 - n) == 2 * Pow2(7 - n);
  }

  lemma {:induction false} FlagSum(c: byte, n: nat)
    requires n <= 8
    ensures FlagWord(c, n) == 255 * Pow2(8 - n) + FlagsLeft(c, n) && FlagsLeft(c, n) < Pow2(8 - n)
  {
    if n == 0 { assert Pow2(8) == 256; } else { FlagSum(c, n - 1); }
  }

  // ----- The decoder --------------------------------------------------------------------

  /** The first `n` bytes of the output are what the history holds after its first N bytes. */
  ghost predicate Shows(out: seq<byte>, n: nat, hist: seq<byte>) {
    |hist| == N + n && n <= |out| && forall k :: 0 <= k < n ==> out[k] == hist[N + k]
  }

  /** Nothing from `n` on changed. */
  ghost predicate Kept(a: seq<byte>, b: seq<byte>, n: nat) {
    |a| == |b| && forall k :: n <= k < |a| ==> a[k] == b[k]
  }

  /** One byte to the output and, unless that filled it, to the ring. */
  method Emit(dst: array<byte>, text: array<byte>, n: nat, r: nat, c: byte, ghost hist: seq<byte>)
    returns (n': nat, r': nat)
    requires dst != text && n < dst.Length && text.Length >= N
    requires Shows(dst[..], n, hist) && Ring(text[..], hist) && r == WriteCell(|hist|)
    modifies dst, text
    ensures n' == n + 1 && Shows(dst[..], n', hist + [c]) && Kept(dst[..], old(dst[..]), n')
    ensures n' < dst.Length ==> Ring(text[..], hist + [c]) && r' == WriteCell(|hist| + 1)
  {
    RingPush(text[..], hist, c);
    NextCell(|hist| + N - F);
    dst[n] := c;
    n', r' := n + 1, r;
    if n' >= dst.Length { return; }
    text[r] := c;
    r' := Cell(r + 1);
  }

  /** The bytes still to come from position `p`. */
  function Rest(hist: seq<byte>, bits: seq<bool>, src: seq<byte>, p: nat): seq<byte>
    requires |hist| >= N && p <= |src|
  {
    Expand(hist, Parse(bits, src[p..]))
  }

  lemma {:induction false} LoadStep(hist: seq<byte>, src: seq<byte>, p: nat)
    requires |hist| >= N && p < |src|
    ensures Rest(hist, [], src, p) == Rest(hist, Bits(src[p]), src, p + 1)
  {
    assert src[p..][1..] == src[p + 1..];
  }

  lemma {:induction false} LitStep(hist: seq<byte>, bits: seq<bool>, src: seq<byte>, p: nat)
    requires |hist| >= N && p < |src| && bits != [] && bits[0]
    ensures Rest(hist, bits, src, p) == Rest(hist + [src[p]], bits[1..], src, p + 1)
  {
    assert src[p..][1..] == src[p + 1..];
    var ts := Parse(bits[1..], src[p + 1..]);
    assert ([Lit(src[p])] + ts)[1..] == ts;
  }

  lemma {:induction false} MatchStep(hist: seq<byte>, bits: seq<bool>, src: seq<byte>, p: nat) returns (copy: seq<byte>)
    requires |hist| >= N && p + 1 < |src| && bits != [] && !bits[0]
    ensures var t := MatchOf(src[p], src[p + 1]);
            && |copy| == |hist| + t.len && Repeats(hist, Distance(|hist|, t.pos), copy)
            && Rest(hist, bits, src, p) == Rest(copy, bits[1..], src, p + 2)
            && copy <= Rest(hist, bits, src, p)
  {
    assert src[p..][2..] == src[p + 2..];
    var t, ts := MatchOf(src[p], src[p + 1]), Parse(bits[1..], src[p + 2..]);
    assert ([t] + ts)[1..] == ts;
    copy := Copy(hist, Distance(|hist|, t.pos), t.len);
    CopyRepeats(hist, Distance(|hist|, t.pos), t.len);
    ExpandExtends(copy, ts);
  }

  /** Input that ends before the next token is complete. */
  lemma {:induction false} EndStep(hist: seq<byte>, bits: seq<bool>, src: seq<byte>, p: nat)
    requires |hist| >= N && p <= |src|
    requires p == |src| || (p + 1 == |src| && bits != [] && !bits[0])
    ensures Rest(hist, bits, src, p) == hist
  {
    assert Parse(bits, src[p..]) == [];
  }

  /** One byte of a match: the ring cell holds the byte at the distance of the match. */
  method CopyByte(dst: array<byte>, text: array<byte>, n: nat, r: nat, i: nat, ghost hist: seq<byte>, ghost d: nat,
                  ghost x: byte)
    returns (n': nat, r': nat)
    requires dst != text && n < dst.Length && text.Length >= N && d == Distance(|hist|, i)
    requires Shows(dst[..], n, hist) && Ring(text[..], hist) && r == WriteCell(|hist|) && x == hist[|hist| - d]
    modifies dst, text
    ensures n' == n + 1 && Kept(dst[..], old(dst[..]), n') && Shows(dst[..], n', hist + [x])
    ensures Distance(|hist| + 1, i + 1) == d
    ensures n' < dst.Length ==> Ring(text[..], hist + [x]) && r' == WriteCell(|hist| + 1)
  {
    RingRead(text[..], hist, i);
    DistanceShift(|hist|, i);
    n', r' := Emit(dst, text, n, r, text[Cell(i)], hist);
  }

  lemma {:induction false} NextByte(hist: seq<byte>, h: seq<byte>, d: nat, copy: seq<byte>)
    requires Repeats(hist, d, copy) && |hist| <= |h| < |copy| && h == copy[..|h|]
    ensures copy[|h|] == h[|h| - d] && h + [copy[|h|]] == copy[..|h| + 1]
  {
  }

  /** The copying loop of a match. */
  method CopyMatch(dst: array<byte>, text: array<byte>, n: nat, r: nat, i: nat, j: nat, ghost hist: seq<byte>,
                   ghost copy: seq<byte>)
    returns (n': nat, r': nat)
    requires dst != text && n < dst.Length && text.Length >= N && |copy| == |hist| + j + 1
    requires Shows(dst[..], n, hist) && Ring(text[..], hist) && r == WriteCell(|hist|)
    requires Repeats(hist, Distance(|hist|, i), copy)
    modifies dst, text
    ensures n < n' <= dst.Length && n' <= n + j + 1 && Kept(dst[..], old(dst[..]), n')
      && Shows(dst[..], n', copy[..N + n'])
    ensures n' < dst.Length ==> n' == n + j + 1 && Ring(text[..], copy) && r' == WriteCell(|copy|)
  {
    n', r' := n, r;
    ghost var d := Distance(|hist|, i);
    assert hist == copy[..|hist|];
    for k := 0 to j + 1
      invariant n' == n + k < dst.Length && Kept(dst[..], old(dst[..]), n')
      invariant Shows(dst[..], n', copy[..N + n']) && Ring(text[..], copy[..N + n']) && r' == WriteCell(N + n')
      invariant Distance(N + n', i + k) == d
    {
      NextByte(hist, copy[..N + n'], d, copy);
      n', r' := CopyByte(dst, text, n', r', i + k, copy[..N + n'], d, copy[N + n']);
      if n' >= dst.Length { return; }
    }
    assert copy[..N + n'] == copy;
  }

  lemma {:induction false} Shown(out: seq<byte>, n: nat, hist: seq<byte>, all: seq<byte>)
    requires Shows(out, n, hist) && hist <= all
    ensures out[..n] == all[N..][..n]
  {
  }

  lemma {:induction false} Transitive(a: seq<byte>, b: seq<byte>, c: seq<byte>)
    requires a <= b <= c
    ensures a <= c
  {
  }

  /** What the next token makes of the history, if the input has it whole. */
  ghost predicate TokenTo(hist: seq<byte>, literal: bool, src: seq<byte>, p: nat, goal: seq<byte>) {
    if literal then p < |src| && goal == hist + [src[p]]
    else p + 1 < |src| && var t := MatchOf(src[p], src[p + 1]);
         |goal| == |hist| + t.len && Repeats(hist, Distance(|hist|, t.pos), goal)
  }

  predicate Complete(literal: bool, src: seq<byte>, p: nat) { if literal then p < |src| else p + 1 < |src| }

  lemma {:induction false} TokenStep(hist: seq<byte>, bits: seq<bool>, src: seq<byte>, p: nat) returns (goal: seq<byte>)
    requires |hist| >= N && p <= |src| && bits != []
    ensures Complete(bits[0], src, p) ==>
      && TokenTo(hist, bits[0], src, p, goal) && goal <= Rest(hist, bits, src, p) && |goal| >= N
      && Rest(hist, bits, src, p) == Rest(goal, bits[1..], src, if bits[0] then p + 1 else p + 2)
    ensures !Complete(bits[0], src, p) ==> goal == hist == Rest(hist, bits, src, p)
  {
    if !Complete(bits[0], src, p) {
      EndStep(hist, bits, src, p);
      goal := hist;
    } else if bits[0] {
      LitStep(hist, bits, src, p);
      goal := hist + [src[p]];
      ExpandExtends(goal, Parse(bits[1..], src[p + 1..]));
    } else {
      goal := MatchStep(hist, bits, src, p);
    }
  }

  /** One token: a literal, or a match.  It is the last when the input or the room for output ends. */
  method OneToken(dst: array<byte>, text: array<byte>, literal: bool, src: seq<byte>, p: nat, n: nat, r: nat,
                  ghost hist: seq<byte>, ghost goal: seq<byte>)
    returns (p': nat, n': nat, r': nat, done: bool)
    requires dst != text && n < dst.Length && text.Length >= N && p <= |src|
    requires Shows(dst[..], n, hist) && Ring(text[..], hist) && r == WriteCell(|hist|)
    requires if Complete(literal, src, p) then TokenTo(hist, literal, src, p, goal) else goal == hist
    modifies dst, text
    ensures n <= n' <= dst.Length && N + n' <= |goal| && Kept(dst[..], old(dst[..]), n')
      && Shows(dst[..], n', goal[..N + n'])
    ensures done ==> n' == dst.Length || (N + n' == |goal| && !Complete(literal, src, p))
    ensures !done ==> Complete(literal, src, p) && p' == (if literal then p + 1 else p + 2) <= |src| && n' < dst.Length
    ensures !done ==> |goal| == N + n' && Ring(text[..], goal) && r' == WriteCell(|goal|)
  {
    p', n', r', done := p, n, r, true;
    if p >= |src| {
      assert goal[..N + n] == hist;
      return;
    }
    if literal {
      n', r' := Emit(dst, text, n, r, src[p], hist);
      assert goal[..N + n'] == goal;
      p' := p + 1;
    } else {
      if p + 1 >= |src| {
        assert goal[..N + n] == hist;
        return;
      }
      var t := MatchOf(src[p], src[p + 1]);
      p' := p + 2;
      n', r' := CopyMatch(dst, text, n, r, t.pos, t.len - 1, hist, goal);
    }
    done := n' >= dst.Length;
  }

  /** The ring on the stack, with its first N - F cells set to spaces. */
  method NewRing(stack: seq<byte>) returns (text: array<byte>)
    requires |stack| == N + F - 1
    ensures fresh(text) && text.Length == N + F - 1
    ensures Ring(text[..], Start(stack[N - F..N])) && WriteCell(N) == N - F
  {
    text := new byte[N + F - 1](j requires 0 <= j < N + F - 1 => stack[j]);
    for i := 0 to N - F
      invariant forall j :: 0 <= j < N + F - 1 ==> text[j] == if j < i then 32 else stack[j]
    {
      text[i] := 32;
    }
    RingStart(stack, text[..]);
  }

  /** decompress_lzss.  `stack` is what the uninitialised ring holds; only its last F cells
      before N can be seen. */
  method Decompress(dst: array<byte>, src: seq<byte>, stack: seq<byte>) returns (n: nat)
    requires dst.Length >= 1 && |stack| == N + F - 1
    modifies dst
    ensures var full := Decoded(stack[N - F..N], src);
            n == (if |full| < dst.Length then |full| else dst.Length) && dst[..n] == full[..n]
    ensures Kept(dst[..], old(dst[..]), n)
  {
    var text := NewRing(stack);
    ghost var hist := Start(stack[N - F..N]);
    ghost var all := Rest(hist, [], src, 0);
    assert src[0..] == src;
    var r, flags: nat, p := N - F, 0, 0;
    ghost var f: byte, k: nat, bits: seq<bool> := 0, 8, [];
    n := 0;
    while true
      invariant 0 <= p <= |src| && 0 <= n < dst.Length && Kept(dst[..], old(dst[..]), n)
      invariant Shows(dst[..], n, hist) && Ring(text[..], hist) && r == WriteCell(|hist|)
      invariant Rest(hist, bits, src, p) == all
      invariant 1 <= k <= 8 && bits == Bits(f)[k..] && (flags == FlagWord(f, k - 1) || (flags == 0 && k == 8))
      decreases |src| - p
    {
      var more;
      flags, more := Shift(flags, f, k);
      if !more {
        if p >= |src| { EndStep(hist, bits, src, p); break; }
        LoadStep(hist, src, p);
        f, k, bits := src[p], 0, Bits(src[p]);
        flags := src[p] as int + 0xFF00;
        p := p + 1;
      }
      FlagBits(f, k);
      ghost var goal := TokenStep(hist, bits, src, p);
      var done;
      p, n, r, done := OneToken(dst, text, flags % 2 == 1, src, p, n, r, hist, goal);
      if done {
        Transitive(goal[..N + n], goal, all);
        hist := goal[..N + n];
        break;
      }
      hist := goal;
      k, bits := k + 1, bits[1..];
    }
    Shown(dst[..], n, hist, all);
  }

  /** The shift of the flag word, and whether it still has flags. */
  method Shift(flags: nat, ghost f: byte, ghost k: nat) returns (flags': nat, more: bool)
    requires 1 <= k <= 8 && (flags == FlagWord(f, k - 1) || (flags == 0 && k == 8))
    ensures more <==> k < 8
    ensures more ==> flags' == FlagWord(f, k)
  {
    FlagBits(f, k);
    flags' := flags / 2;
    more := flags' / 256 % 2 == 1;
  }
}
