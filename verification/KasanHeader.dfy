/** The header and footer that the sanitizer keeps in the redzones of an allocation, and
    the checks made when it is freed (san/kasan.c). */
module KasanHeader {
  import opened Bits
  import opened Bytes
  import opened KasanShadow
  import opened KasanHeap
  import opened Wrappers

  const HEADER := 16
  const MAXFRAMES := 15
  const LIVE_XOR := 0x3a65

  // ----- The header ---------------------------------------------------------------------------

  /** struct kasan_alloc_header: leftRz has 28 bits and frames 4. */
  datatype Header = Header(magic: nat, crc: nat, allocSize: nat, userSize: nat, leftRz: nat, frames: nat)

  predicate Fits(h: Header) {
    && h.magic < 0x1_0000 && h.crc < 0x1_0000 && h.allocSize < 0x1_0000_0000 && h.userSize < 0x1_0000_0000
    && h.leftRz < 0x1000_0000 && h.frames < 16
  }

  function Encode(h: Header): (s: seq<byte>)
    ensures |s| == HEADER
  {
    Put(h.magic, 2) + Put(h.crc, 2) + Put(h.allocSize, 4) + Put(h.userSize, 4)
      + Put(h.leftRz + 0x1000_0000 * h.frames, 4)
  }

  function Decode(s: seq<byte>): (h: Header)
    ensures Fits(h)
  {
    if |s| != HEADER then Header(0, 0, 0, 0, 0, 0) else
    assert Pow256(1) == 256 && Pow256(2) == 0x1_0000 && Pow256(3) == 0x100_0000 && Pow256(4) == 0x1_0000_0000;
    var w := Get(s[12..16]);
    Header(Get(s[0..2]), Get(s[2..4]), Get(s[4..8]), Get(s[8..12]), w % 0x1000_0000, w / 0x1000_0000)
  }

  lemma {:induction false} DecodeEncode(h: Header)
    requires Fits(h)
    ensures Decode(Encode(h)) == h
  {
    assert Pow256(1) == 256 && Pow256(2) == 0x1_0000 && Pow256(3) == 0x100_0000 && Pow256(4) == 0x1_0000_0000;
    var s, w := Encode(h), h.leftRz + 0x1000_0000 * h.frames;
    GetPut(h.magic, 2);
    GetPut(h.crc, 2);
    GetPut(h.allocSize, 4);
    GetPut(h.userSize, 4);
    GetPut(w, 4);
    assert s[0..2] == Put(h.magic, 2) && s[2..4] == Put(h.crc, 2);
    assert s[4..8] == Put(h.allocSize, 4) && s[8..12] == Put(h.userSize, 4) && s[12..16] == Put(w, 4);
  }

  lemma {:induction false} EncodeDecode(s: seq<byte>)
    requires |s| == HEADER
    ensures Encode(Decode(s)) == s
  {
    PutGet(s[0..2]);
    PutGet(s[2..4]);
    PutGet(s[4..8]);
    PutGet(s[8..12]);
    PutGet(s[12..16]);
  }

  /** How a header lies in memory, byte by byte. */
  lemma {:induction false} HeaderLayout(h: Header)
    requires Fits(h)
    ensures Encode(h) ==
      [h.magic % 256, h.magic / 256, h.crc % 256, h.crc / 256,
       h.allocSize % 256, h.allocSize / 256 % 256, h.allocSize / 256 / 256 % 256, h.allocSize / 256 / 256 / 256,
       h.userSize % 256, h.userSize / 256 % 256, h.userSize / 256 / 256 % 256, h.userSize / 256 / 256 / 256,
       h.leftRz % 256, h.leftRz / 256 % 256, h.leftRz / 256 / 256 % 256, h.leftRz / 256 / 256 / 256 + 16 * h.frames]
  {
    HalfLayout(h.magic);
    HalfLayout(h.crc);
    WordLayout(h.allocSize);
    WordLayout(h.userSize);
    FieldLayout(h.leftRz, h.frames);
  }

  lemma {:induction false} HalfLayout(x: nat)
    requires x < 0x1_0000
    ensures Put(x, 2) == [x % 256, x / 256]
  {
    assert Put(x / 256, 1) == [x / 256 % 256];
  }

  lemma {:induction false} WordLayout(x: nat)
    requires x < 0x1_0000_0000
    ensures Put(x, 4) == [x % 256, x / 256 % 256, x / 256 / 256 % 256, x / 256 / 256 / 256]
  {
    HalfLayout(x / 256 / 256);
    assert Put(x / 256, 3) == [x / 256 % 256] + Put(x / 256 / 256, 2);
  }

  lemma {:induction false} FieldLayout(l: nat, f: nat)
    requires l < 0x1000_0000 && f < 16
    ensures Put(l + 0x1000_0000 * f, 4) == [l % 256, l / 256 % 256, l / 256 / 256 % 256, l / 256 / 256 / 256 + 16 * f]
  {
    WordLayout(l + 0x1000_0000 * f);
    AddMul(l, 0x10_0000 * f);
    AddMul(l / 256, 0x1000 * f);
    AddMul(l / 256 / 256, 16 * f);
  }

  lemma {:induction false} AddMul(l: nat, c: nat)
    ensures (l + 256 * c) / 256 == l / 256 + c && (l + 256 * c) % 256 == l % 256
  {
  }

  /** magic_for_addr: the four 16-bit parts of the address and a constant, folded together. */
  function MagicFor(addr: nat, x: nat): nat {
    Xor(Xor(Xor(Xor(addr % 0x1_0000, addr / 0x1_0000, 16), addr / 0x1_0000_0000, 16), addr / 0x1_0000_0000_0000, 16),
      x, 16)
  }

  lemma {:induction false} MagicBound(addr: nat, x: nat)
    ensures MagicFor(addr, x) < 0x1_0000
  {
    XorBound(Xor(Xor(Xor(addr % 0x1_0000, addr / 0x1_0000, 16), addr / 0x1_0000_0000, 16), addr / 0x1_0000_0000_0000,
      16), x, 16);
    Twos();
  }

  /** Bit by bit, the magic is the parity of the address's four 16-bit parts and the constant. */
  lemma {:induction false} MagicBits(addr: nat, x: nat, n: nat)
    requires n < 16
    ensures Bit(MagicFor(addr, x), n) ==
      (Bit(addr, n) + Bit(addr, n + 16) + Bit(addr, n + 32) + Bit(addr, n + 48) + Bit(x, n)) % 2
  {
    PartBits(addr, n);
    FoldBit(addr % 0x1_0000, addr / 0x1_0000, addr / 0x1_0000_0000, addr / 0x1_0000_0000_0000, x, 16, n);
  }

  // ----- Memory -------------------------------------------------------------------------------

  /** What the hooks rely on: how a header lies in memory, and __nosan_crc16, whatever it computes. */
  datatype Abi = Abi(enc: Header -> seq<byte>, dec: seq<byte> -> Header, crc: (nat, seq<byte>) -> nat)

  /** Sixteen bytes and a header whose fields fit are the same thing. */
  ghost predicate AbiOk(x: Abi) {
    && (forall h :: |x.enc(h)| == HEADER)
    && (forall h :: Fits(h) ==> x.dec(x.enc(h)) == h)
    && (forall s :: Fits(x.dec(s)))
    && (forall s :: |s| == HEADER ==> x.enc(x.dec(s)) == s)
  }

  /** The layout of struct kasan_alloc_header is such, with any checksum. */
  lemma {:induction false} XnuAbi(crc: (nat, seq<byte>) -> nat)
    ensures AbiOk(Abi(Encode, Decode, crc))
  {
    forall h: Header | Fits(h) ensures Decode(Encode(h)) == h { DecodeEncode(h); }
    forall s: seq<byte> | |s| == HEADER ensures Encode(Decode(s)) == s { EncodeDecode(s); }
  }

  /** `now` is `was` with the bytes `s` written at address `at`. */
  ghost predicate Stored(now: seq<byte>, was: seq<byte>, at: nat, s: seq<byte>) {
    && |now| == |was| && at + |s| <= |was|
    && forall k :: 0 <= k < |was| ==> now[k] == if at <= k < at + |s| then s[k - at] else was[k]
  }

  /** The header of the object whose user address is `user`. */
  function HeaderAt(x: Abi, mem: seq<byte>, user: nat): Header
    requires HEADER <= user <= |mem|
  {
    x.dec(mem[user - HEADER..user])
  }

  /** The sizes in the header describe a range that contains the header and lies in memory. */
  predicate InBounds(h: Header, user: nat, n: nat) {
    HEADER <= h.leftRz <= user && h.leftRz + h.userSize <= h.allocSize && user - h.leftRz + h.allocSize <= n
  }

  function RightRz(h: Header): nat
    requires h.leftRz + h.userSize <= h.allocSize
  {
    h.allocSize - h.userSize - h.leftRz
  }

  /** kasan_alloc_crc: the checksum of both redzones with the crc field read as zero. */
  function CrcOf(x: Abi, mem: seq<byte>, user: nat): nat
    requires HEADER <= user <= |mem| && InBounds(HeaderAt(x, mem, user), user, |mem|)
  {
    var h := HeaderAt(x, mem, user);
    var left := mem[user - h.leftRz..user - HEADER] + x.enc(h.(crc := 0));
    x.crc(x.crc(0, left), mem[user + h.userSize..user + h.userSize + RightRz(h)]) % 0x1_0000
  }

  /** Header and checksum are as kasan_alloc leaves them. */
  ghost predicate HeaderIntact(x: Abi, mem: seq<byte>, b: Block) {
    var user := b.base + b.left;
    && HEADER <= b.left && b.left + b.req <= b.size && b.base + b.size <= |mem|
    && var h := HeaderAt(x, mem, user);
       && h.magic == MagicFor(user, LIVE_XOR) && h.allocSize == b.size && h.userSize == b.req && h.leftRz == b.left
       && h.crc == CrcOf(x, mem, user)
  }

  /** The shadow of the block is as kasan_alloc leaves it. */
  ghost predicate ShadowIntact(shadow: seq<byte>, b: Block) {
    && BlockOk(b, |shadow|)
    && forall g :: b.base / GRANULE <= g < (b.base + b.size) / GRANULE ==>
         shadow[g] == PoisonByte(g - b.base / GRANULE, b.req, b.left, HEAP_RZ)
  }

  /** The bytes that the checksum of a block is made of: the left redzone with the crc field
      zero, and the right redzone. */
  function LeftBytes(x: Abi, mem: seq<byte>, b: Block): seq<byte>
    requires HEADER <= b.left && b.base + b.left <= |mem|
  {
    mem[b.base..b.base + b.left - 16] + x.enc(HeaderAt(x, mem, b.base + b.left).(crc := 0))
  }

  function RightBytes(mem: seq<byte>, b: Block): seq<byte>
    requires b.left + b.req <= b.size && b.base + b.size <= |mem|
  {
    mem[b.base + b.left + b.req..b.base + b.size]
  }

  lemma {:induction false} CrcBytes(x: Abi, mem: seq<byte>, b: Block)
    requires HEADER <= b.left && b.left + b.req <= b.size && b.base + b.size <= |mem|
    requires var h := HeaderAt(x, mem, b.base + b.left);
      h.allocSize == b.size && h.userSize == b.req && h.leftRz == b.left
    ensures CrcOf(x, mem, b.base + b.left) == x.crc(x.crc(0, LeftBytes(x, mem, b)), RightBytes(mem, b)) % 0x1_0000
  {
  }

  /** Only the redzones of the block matter: whatever the user writes elsewhere leaves the
      header intact. */
  lemma {:induction false} HeaderStable(x: Abi, mem: seq<byte>, mem': seq<byte>, b: Block)
    requires HeaderIntact(x, mem, b) && |mem'| == |mem|
    requires mem'[b.base..b.base + b.left] == mem[b.base..b.base + b.left]
    requires mem'[b.base + b.left + b.req..b.base + b.size] == mem[b.base + b.left + b.req..b.base + b.size]
    ensures HeaderIntact(x, mem', b)
  {
    SameLeft(x, mem, mem', b);
    CrcBytes(x, mem, b);
    CrcBytes(x, mem', b);
  }

  lemma {:induction false} SameLeft(x: Abi, mem: seq<byte>, mem': seq<byte>, b: Block)
    requires HEADER <= b.left && b.base + b.left <= |mem| == |mem'|
    requires mem'[b.base..b.base + b.left] == mem[b.base..b.base + b.left]
    ensures HeaderAt(x, mem', b.base + b.left) == HeaderAt(x, mem, b.base + b.left)
    ensures LeftBytes(x, mem', b) == LeftBytes(x, mem, b)
  {
    var user := b.base + b.left;
    SliceOfSlice(mem, mem', b.base, user - HEADER, user, user);
    SliceOfSlice(mem, mem', b.base, b.base, user - HEADER, user);
  }

  lemma {:induction false} SliceOfSlice(a: seq<byte>, b: seq<byte>, lo: nat, i: nat, j: nat, hi: nat)
    requires lo <= i <= j <= hi <= |a| == |b| && a[lo..hi] == b[lo..hi]
    ensures a[i..j] == b[i..j]
  {
    assert forall k :: i <= k < j ==> a[k] == a[lo..hi][k - lo] == b[lo..hi][k - lo] == b[k];
  }

  // ----- The hooks ----------------------------------------------------------------------------

  function Min(a: nat, b: nat): nat { if a < b then a else b }

  /** How many callers kasan_alloc_bt leaves out, of those it may, so that the rest fits. */
  function Skipped(room: nat, skip: nat, depth: nat): (n: nat)
    ensures n <= Min(Min(room + skip, MAXFRAMES), depth)
  {
    var got := Min(Min(room + skip, MAXFRAMES), depth);
    Min(skip, if got > room then got - room else 0)
  }

  /** The words kasan_alloc_bt stores in `sz` bytes: offsets from the kernel base, in 32 bits. */
  function Trace(sz: nat, skip: nat, stack: seq<nat>, slid: int): seq<nat> {
    var room := sz / 4;
    if room == 0 then [] else
      var got := Min(Min(room + skip, MAXFRAMES), |stack|);
      Words(stack[Skipped(room, skip, |stack|)..got], slid)
  }

  function Words(bt: seq<nat>, slid: int): (ws: seq<nat>)
    ensures |ws| == |bt| && forall i :: 0 <= i < |bt| ==> ws[i] == (bt[i] - slid) % 0x1_0000_0000
  {
    seq(|bt|, i requires 0 <= i < |bt| => (bt[i] - slid) % 0x1_0000_0000)
  }

  /** Words as they lie in memory. */
  function Laid(ws: seq<nat>): (s: seq<byte>)
    ensures |s| == 4 * |ws|
  {
    if ws == [] then [] else Laid(ws[..|ws| - 1]) + Put(ws[|ws| - 1], 4)
  }

  /** There are as many words as fit, up to fifteen and as there are callers; they are the callers
      in order, of which none is left out but the first `skip`, and those only for want of room. */
  lemma {:induction false} TraceFits(sz: nat, skip: nat, stack: seq<nat>, slid: int)
    ensures var ws := Trace(sz, skip, stack, slid); var d := Skipped(sz / 4, skip, |stack|);
      && |ws| == Min(sz / 4, Min(15, |stack|)) && d <= skip && d + |ws| == Min(Min(sz / 4 + skip, 15), |stack|)
      && (forall i :: 0 <= i < |ws| ==> ws[i] == (stack[d + i] - slid) % 0x1_0000_0000)
      && (d > 0 && |ws| > 0 ==> |ws| == sz / 4)
  {
  }

  lemma {:induction false} StoredAppend(now: seq<byte>, mid: seq<byte>, was: seq<byte>, at: nat, a: seq<byte>,
                                        b: seq<byte>)
    requires Stored(mid, was, at, a) && Stored(now, mid, at + |a|, b)
    ensures Stored(now, was, at, a + b)
  {
  }

  /** kasan_alloc_bt.  `stack` is what the unwinder finds, and `slid` the kernel base. */
  method AllocBt(mem: array<byte>, at: nat, sz: nat, skip: nat, stack: seq<nat>, slid: int)
    returns (frames: nat, ghost ws: seq<nat>)
    requires at + sz <= mem.Length
    modifies mem
    ensures ws == Trace(sz, skip, stack, slid) && frames == |ws| <= MAXFRAMES && 4 * |ws| <= sz
    ensures Stored(mem[..], old(mem[..]), at, Laid(ws))
  {
    TraceFits(sz, skip, stack, slid);
    ws := Trace(sz, skip, stack, slid);
    frames := sz / 4;
    if frames > 0 {
      var bt := Callers(frames, skip, stack);
      frames := |bt|;
      StoreWords(mem, at, Words(bt, slid));
    }
  }

  /** The unwinder's frames, less as many of the first as need be. */
  method Callers(room: nat, skip: nat, stack: seq<nat>) returns (bt: seq<nat>)
    ensures bt == stack[Skipped(room, skip, |stack|)..Min(Min(room + skip, MAXFRAMES), |stack|)]
  {
    var frames := Min(Min(room + skip, MAXFRAMES), |stack|);
    ghost var got := frames;
    var left := skip;
    bt := stack[..frames];
    while frames > room && left > 0
      invariant left <= skip && skip - left <= got && frames == got - (skip - left)
      invariant bt == stack[skip - left..got] && (left < skip ==> frames >= room)
    {
      bt, frames, left := bt[1..], frames - 1, left - 1;
    }
  }

  method StoreWords(mem: array<byte>, at: nat, ws: seq<nat>)
    requires at + 4 * |ws| <= mem.Length
    modifies mem
    ensures Stored(mem[..], old(mem[..]), at, Laid(ws))
  {
    var i := 0;
    while i < |ws|
      invariant i <= |ws| && Stored(mem[..], old(mem[..]), at, Laid(ws[..i]))
    {
      ghost var mid := mem[..];
      StoreWord(mem, at + 4 * i, ws[i]);
      StoredAppend(mem[..], mid, old(mem[..]), at, Laid(ws[..i]), Put(ws[i], 4));
      assert ws[..i + 1][..i] == ws[..i];
      i := i + 1;
    }
    assert ws[..i] == ws;
  }

  method StoreWord(mem: array<byte>, at: nat, x: nat)
    requires at + 4 <= mem.Length
    modifies mem
    ensures Stored(mem[..], old(mem[..]), at, Put(x, 4))
  {
    StoreBytes(mem, at, Put(x, 4));
  }

  method StoreBytes(mem: array<byte>, at: nat, s: seq<byte>)
    requires at + |s| <= mem.Length
    modifies mem
    ensures Stored(mem[..], old(mem[..]), at, s)
  {
    for i := 0 to |s|
      invariant forall k :: 0 <= k < mem.Length ==> mem[k] == if at <= k < at + i then s[k - at] else old(mem[k])
    {
      mem[at + i] := s[i];
    }
  }

  /** kasan_alloc_crc: clears the crc field, sums, and puts the field back. */
  method AllocCrc(x: Abi, mem: array<byte>, user: nat) returns (sum: nat)
    requires AbiOk(x) && HEADER <= user <= mem.Length && InBounds(HeaderAt(x, mem[..], user), user, mem.Length)
    modifies mem
    ensures mem[..] == old(mem[..]) && sum == CrcOf(x, mem[..], user)
  {
    ghost var was := mem[..];
    var h := x.dec(mem[user - HEADER..user]);
    assert h == HeaderAt(x, was, user);
    StoreBytes(mem, user - HEADER, x.enc(h.(crc := 0)));
    ghost var mid := mem[..];
    CrcSum(x, was, mid, user, h);
    sum := x.crc(x.crc(0, mem[user - h.leftRz..user]),
      mem[user + h.userSize..user + h.userSize + RightRz(h)]) % 0x1_0000;
    StoreBytes(mem, user - HEADER, x.enc(h));
    StoreBack(was, mid, mem[..], user - HEADER, x.enc(h.(crc := 0)), x.enc(h));
  }

  lemma {:induction false} CrcSlices(x: Abi, was: seq<byte>, mid: seq<byte>, user: nat, h: Header)
    requires AbiOk(x) && HEADER <= user <= |was| && h == HeaderAt(x, was, user) && InBounds(h, user, |was|)
    requires Stored(mid, was, user - HEADER, x.enc(h.(crc := 0)))
    ensures mid[user - h.leftRz..user] == was[user - h.leftRz..user - HEADER] + x.enc(h.(crc := 0))
    ensures mid[user + h.userSize..user + h.userSize + RightRz(h)]
      == was[user + h.userSize..user + h.userSize + RightRz(h)]
  {
  }

  lemma {:induction false} CrcSum(x: Abi, was: seq<byte>, mid: seq<byte>, user: nat, h: Header)
    requires AbiOk(x) && HEADER <= user <= |was| && h == HeaderAt(x, was, user) && InBounds(h, user, |was|)
    requires Stored(mid, was, user - HEADER, x.enc(h.(crc := 0)))
    ensures x.crc(x.crc(0, mid[user - h.leftRz..user]),
      mid[user + h.userSize..user + h.userSize + RightRz(h)]) % 0x1_0000 == CrcOf(x, was, user)
  {
    CrcSlices(x, was, mid, user, h);
  }

  lemma {:induction false} StoreBack(was: seq<byte>, mid: seq<byte>, now: seq<byte>, at: nat, s: seq<byte>,
                                     t: seq<byte>)
    requires Stored(mid, was, at, s) && Stored(now, mid, at, t) && |s| == |t| && was[at..at + |t|] == t
    ensures now == was
  {
  }

  lemma {:induction false} StoreHeader(x: Abi, now: seq<byte>, was: seq<byte>, user: nat, h: Header)
    requires AbiOk(x) && HEADER <= user <= |now| && Fits(h) && Stored(now, was, user - HEADER, x.enc(h))
    ensures HeaderAt(x, now, user) == h
  {
    assert now[user - HEADER..user] == x.enc(h);
  }

  /** The checksum does not depend on the crc field. */
  lemma {:induction false} CrcIgnoresField(x: Abi, now: seq<byte>, was: seq<byte>, user: nat, c: nat)
    requires AbiOk(x) && HEADER <= user <= |was| && InBounds(HeaderAt(x, was, user), user, |was|) && c < 0x1_0000
    requires Stored(now, was, user - HEADER, x.enc(HeaderAt(x, was, user).(crc := c)))
    ensures HeaderAt(x, now, user) == HeaderAt(x, was, user).(crc := c)
    ensures CrcOf(x, now, user) == CrcOf(x, was, user)
  {
    var h := HeaderAt(x, was, user);
    StoreHeader(x, now, was, user, h.(crc := c));
    assert now[user - h.leftRz..user - HEADER] == was[user - h.leftRz..user - HEADER];
    assert now[user + h.userSize..user + h.userSize + RightRz(h)]
      == was[user + h.userSize..user + h.userSize + RightRz(h)];
  }

  predicate InRedzones(b: Block, k: nat) {
    b.base <= k < b.base + b.left || b.base + b.left + b.req <= k < b.base + b.size
  }

  /** Outside the redzones of the block nothing changed. */
  ghost predicate UserKept(mem: seq<byte>, was: seq<byte>, b: Block) {
    && |mem| == |was|
    && forall k :: 0 <= k < |mem| && !InRedzones(b, k) ==> mem[k] == was[k]
  }

  /** The words are in memory from an address on. */
  ghost predicate HasWords(mem: seq<byte>, at: nat, ws: seq<nat>) {
    at + 4 * |ws| <= |mem| && mem[at..at + 4 * |ws|] == Laid(ws)
  }

  lemma {:induction false} WordsKept(mem: seq<byte>, mem': seq<byte>, at: nat, ws: seq<nat>)
    requires HasWords(mem, at, ws) && |mem'| == |mem| && forall k :: at <= k < |mem| ==> mem'[k] == mem[k]
    ensures HasWords(mem', at, ws)
  {
  }

  /** The backtrace is at the start of the right redzone, and its length in the header. */
  ghost predicate Traced(x: Abi, mem: seq<byte>, b: Block, ws: seq<nat>, stack: seq<nat>, slid: int) {
    && HEADER <= b.left && b.left + b.req <= b.size && b.base + b.left <= |mem|
    && ws == Trace(b.size - b.left - b.req, 2, stack, slid)
    && HasWords(mem, b.base + b.left + b.req, ws) && HeaderAt(x, mem, b.base + b.left).frames == |ws|
  }

  lemma {:induction false} WordsStored(was: seq<byte>, now: seq<byte>, at: nat, ws: seq<nat>)
    requires Stored(now, was, at, Laid(ws))
    ensures HasWords(now, at, ws)
  {
    assert now[at..at + 4 * |ws|] == Laid(ws);
  }

  lemma {:induction false} RedzoneStored(was: seq<byte>, now: seq<byte>, b: Block, s: seq<byte>)
    requires b.left + b.req + |s| <= b.size && Stored(now, was, b.base + b.left + b.req, s)
    ensures UserKept(now, was, b)
  {
  }

  /** The words can be read back. */
  lemma {:induction false} LaidWord(ws: seq<nat>, i: nat)
    requires i < |ws| && forall j :: 0 <= j < |ws| ==> ws[j] < 0x1_0000_0000
    ensures Get(Laid(ws)[4 * i..4 * i + 4]) == ws[i]
  {
    var init, last := ws[..|ws| - 1], ws[|ws| - 1];
    if i == |init| {
      assert Pow256(2) == 0x1_0000;
      assert Pow256(4) == 0x1_0000_0000;
      GetPut(last, 4);
      assert Laid(ws)[4 * i..4 * i + 4] == Put(last, 4);
    } else {
      LaidWord(init, i);
      assert Laid(ws)[4 * i..4 * i + 4] == Laid(init)[4 * i..4 * i + 4];
    }
  }

  /** The header part of kasan_alloc, up to the checksum: sizes, magic and backtrace. */
  method WriteFields(x: Abi, mem: array<byte>, b: Block, stack: seq<nat>, slid: int)
    returns (h: Header, ghost ws: seq<nat>)
    requires AbiOk(x) && b.left >= HEADER && b.left + b.req <= b.size && b.base + b.size <= mem.Length
    requires b.size < 0x1_0000_0000 && b.left < 0x1000_0000
    modifies mem
    ensures Fits(h) && h.magic == MagicFor(b.base + b.left, LIVE_XOR)
    ensures h.allocSize == b.size && h.userSize == b.req && h.leftRz == b.left && h.frames == |ws|
    ensures ws == Trace(b.size - b.left - b.req, 2, stack, slid) && HasWords(mem[..], b.base + b.left + b.req, ws)
    ensures HeaderAt(x, mem[..], b.base + b.left) == h && UserKept(mem[..], old(mem[..]), b)
  {
    h := WriteSizes(x, mem, b);
    ghost var mid := mem[..];
    h, ws := WriteTrace(x, mem, b, h, b.size - b.left - b.req, stack, slid);
    KeptTwice(mem[..], mid, old(mem[..]), b);
  }

  method WriteSizes(x: Abi, mem: array<byte>, b: Block) returns (h: Header)
    requires AbiOk(x) && b.left >= HEADER && b.base + b.left <= mem.Length && b.req <= b.size
    requires b.size < 0x1_0000_0000 && b.left < 0x1000_0000
    modifies mem
    ensures Fits(h) && h.magic == MagicFor(b.base + b.left, LIVE_XOR)
    ensures h.allocSize == b.size && h.userSize == b.req && h.leftRz == b.left && UserKept(mem[..], old(mem[..]), b)
  {
    var user := b.base + b.left;
    h := x.dec(mem[user - HEADER..user]);
    MagicBound(user, LIVE_XOR);
    h := h.(magic := MagicFor(user, LIVE_XOR), leftRz := b.left, allocSize := b.size, userSize := b.req);
    StoreFields(x, mem, b, h);
  }

  /** The backtrace goes into the right redzone, and its length into the header. */
  method WriteTrace(x: Abi, mem: array<byte>, b: Block, h: Header, sz: nat, stack: seq<nat>, slid: int)
    returns (h': Header, ghost ws: seq<nat>)
    requires AbiOk(x) && b.left >= HEADER && b.left + b.req + sz == b.size && b.base + b.size <= mem.Length && Fits(h)
    modifies mem
    ensures h' == h.(frames := |ws|) && Fits(h')
    ensures ws == Trace(sz, 2, stack, slid) && HasWords(mem[..], b.base + b.left + b.req, ws)
    ensures HeaderAt(x, mem[..], b.base + b.left) == h' && UserKept(mem[..], old(mem[..]), b)
  {
    var frames;
    frames, ws := StoreTrace(mem, b, sz, stack, slid);
    h' := StoreLength(x, mem, b, h.(frames := frames), ws, old(mem[..]));
  }

  method StoreTrace(mem: array<byte>, b: Block, sz: nat, stack: seq<nat>, slid: int)
    returns (frames: nat, ghost ws: seq<nat>)
    requires b.left + b.req + sz == b.size && b.base + b.size <= mem.Length
    modifies mem
    ensures ws == Trace(sz, 2, stack, slid) && frames == |ws| <= MAXFRAMES
    ensures HasWords(mem[..], b.base + b.left + b.req, ws) && UserKept(mem[..], old(mem[..]), b)
  {
    frames, ws := AllocBt(mem, b.base + b.left + b.req, sz, 2, stack, slid);
    RedzoneStored(old(mem[..]), mem[..], b, Laid(ws));
    WordsStored(old(mem[..]), mem[..], b.base + b.left + b.req, ws);
  }

  method StoreLength(x: Abi, mem: array<byte>, b: Block, h: Header, ghost ws: seq<nat>, ghost was: seq<byte>)
    returns (h': Header)
    requires AbiOk(x) && b.left >= HEADER && b.base + b.left <= mem.Length && Fits(h)
    requires HasWords(mem[..], b.base + b.left + b.req, ws) && UserKept(mem[..], was, b)
    modifies mem
    ensures h' == h && HeaderAt(x, mem[..], b.base + b.left) == h && UserKept(mem[..], was, b)
    ensures HasWords(mem[..], b.base + b.left + b.req, ws)
  {
    h' := h;
    ghost var mid := mem[..];
    StoreFields(x, mem, b, h);
    WordsKept(mid, mem[..], b.base + b.left + b.req, ws);
    KeptTwice(mem[..], mid, was, b);
  }

  method StoreFields(x: Abi, mem: array<byte>, b: Block, h: Header)
    requires AbiOk(x) && b.left >= HEADER && b.base + b.left <= mem.Length && Fits(h)
    modifies mem
    ensures HeaderAt(x, mem[..], b.base + b.left) == h && UserKept(mem[..], old(mem[..]), b)
    ensures forall k :: b.base + b.left <= k < mem.Length ==> mem[k] == old(mem[k])
  {
    var user := b.base + b.left;
    ghost var was := mem[..];
    StoreBytes(mem, user - HEADER, x.enc(h));
    StoreHeader(x, mem[..], was, user, h);
  }

  /** The end of kasan_alloc: the checksum goes into the header. */
  method WriteCrc(x: Abi, mem: array<byte>, b: Block, h: Header)
    requires AbiOk(x) && b.left >= HEADER && b.left + b.req <= b.size && b.base + b.size <= mem.Length
    requires HeaderAt(x, mem[..], b.base + b.left) == h && h.magic == MagicFor(b.base + b.left, LIVE_XOR)
    requires h.allocSize == b.size && h.userSize == b.req && h.leftRz == b.left
    modifies mem
    ensures HeaderIntact(x, mem[..], b) && UserKept(mem[..], old(mem[..]), b)
    ensures HeaderAt(x, mem[..], b.base + b.left).frames == h.frames
    ensures forall k :: b.base + b.left <= k < mem.Length ==> mem[k] == old(mem[k])
  {
    var user := b.base + b.left;
    var sum := AllocCrc(x, mem, user);
    ghost var was := mem[..];
    StoreBytes(mem, user - HEADER, x.enc(h.(crc := sum)));
    CrcIgnoresField(x, mem[..], was, user, sum);
  }

  lemma {:induction false} PoisonedIntact(sh: seq<byte>, b: Block)
    requires BlockOk(b, |sh|)
    ensures ShadowIntact(Poisoned(sh, b.base, b.req, b.left, b.size - b.req - b.left, HEAP_RZ), b)
  {
  }

  lemma {:induction false} KeptTwice(mem: seq<byte>, mid: seq<byte>, was: seq<byte>, b: Block)
    requires UserKept(mem, mid, b) && UserKept(mid, was, b)
    ensures UserKept(mem, was, b)
  {
  }

  method WriteHeader(x: Abi, mem: array<byte>, b: Block, stack: seq<nat>, slid: int) returns (ghost ws: seq<nat>)
    requires AbiOk(x) && b.left >= HEADER && b.left + b.req <= b.size && b.base + b.size <= mem.Length
    requires b.size < 0x1_0000_0000 && b.left < 0x1000_0000
    modifies mem
    ensures HeaderIntact(x, mem[..], b) && UserKept(mem[..], old(mem[..]), b)
    ensures Traced(x, mem[..], b, ws, stack, slid)
  {
    var h;
    h, ws := WriteFields(x, mem, b, stack, slid);
    ghost var mid := mem[..];
    WriteCrc(x, mem, b, h);
    KeptTwice(mem[..], mid, old(mem[..]), b);
    TraceSurvives(x, mid, mem[..], b, ws, stack, slid);
  }

  lemma {:induction false} TraceSurvives(x: Abi, mid: seq<byte>, now: seq<byte>, b: Block, ws: seq<nat>,
                                         stack: seq<nat>, slid: int)
    requires HEADER <= b.left && b.left + b.req <= b.size && b.base + b.left <= |mid| == |now|
    requires ws == Trace(b.size - b.left - b.req, 2, stack, slid) && HasWords(mid, b.base + b.left + b.req, ws)
    requires HeaderAt(x, now, b.base + b.left).frames == |ws|
    requires forall k :: b.base + b.left <= k < |mid| ==> now[k] == mid[k]
    ensures Traced(x, now, b, ws, stack, slid)
  {
    WordsKept(mid, now, b.base + b.left + b.req, ws);
  }

  /** What kasan_alloc does: header, checksum, backtrace and shadow, and nothing outside the redzones. */
  ghost predicate Allocated(x: Abi, was: seq<byte>, mem: seq<byte>, sh: seq<byte>, shadow: seq<byte>, b: Block,
                            ws: seq<nat>, stack: seq<nat>, slid: int) {
    && BlockOk(b, |sh|) && HeaderIntact(x, mem, b) && UserKept(mem, was, b) && Traced(x, mem, b, ws, stack, slid)
    && ShadowIntact(shadow, b) && shadow == Poisoned(sh, b.base, b.req, b.left, b.size - b.req - b.left, HEAP_RZ)
  }

  /** kasan_alloc. */
  method Alloc(x: Abi, mem: array<byte>, shadow: array<byte>, addr: nat, size: nat, req: nat, left: nat,
               stack: seq<nat>, slid: int)
    returns (user: nat, ghost ws: seq<nat>)
    requires AbiOk(x) && mem != shadow && mem.Length == GRANULE * shadow.Length
    requires addr != 0 ==> BlockOk(Block(addr, size, left, req), shadow.Length)
    requires addr != 0 ==> size < 0x1_0000_0000 && left < 0x1000_0000
    modifies mem, shadow
    ensures addr == 0 ==> user == 0 && mem[..] == old(mem[..]) && shadow[..] == old(shadow[..])
    ensures addr != 0 ==> user == addr + left && Allocated(x, old(mem[..]), mem[..], old(shadow[..]), shadow[..],
      Block(addr, size, left, req), ws, stack, slid)
  {
    if addr == 0 { return 0, []; }
    ws := AllocAt(x, mem, shadow, Block(addr, size, left, req), stack, slid);
    user := addr + left;
  }

  method AllocAt(x: Abi, mem: array<byte>, shadow: array<byte>, b: Block, stack: seq<nat>, slid: int)
    returns (ghost ws: seq<nat>)
    requires AbiOk(x) && mem != shadow && mem.Length == GRANULE * shadow.Length && BlockOk(b, shadow.Length)
    requires b.size < 0x1_0000_0000 && b.left < 0x1000_0000
    modifies mem, shadow
    ensures Allocated(x, old(mem[..]), mem[..], old(shadow[..]), shadow[..], b, ws, stack, slid)
  {
    PoisonBlock(shadow, b);
    ws := WriteHeader(x, mem, b, stack, slid);
  }

  method PoisonBlock(shadow: array<byte>, b: Block)
    requires BlockOk(b, shadow.Length)
    modifies shadow
    ensures ShadowIntact(shadow[..], b)
    ensures shadow[..] == Poisoned(old(shadow[..]), b.base, b.req, b.left, b.size - b.req - b.left, HEAP_RZ)
  {
    PoisonedIntact(shadow[..], b);
    Poison(shadow, b.base, b.req, b.left, b.size - b.req - b.left, HEAP_RZ);
  }

  datatype Reason = BadMetadata | ModOob | InvalidSize | PoisonedRange

  /** Every granule in the range that starts a whole granule is valid or has the value. */
  ghost predicate RedzoneOk(shadow: seq<byte>, addr: nat, sz: nat, value: byte)
    requires addr + sz <= GRANULE * |shadow|
  {
    forall g :: addr <= GRANULE * g < addr + sz ==> shadow[g] == 0 || shadow[g] == value
  }

  /** Everything that kasan_check_free looks at is in order. */
  ghost predicate Sound(x: Abi, mem: seq<byte>, shadow: seq<byte>, user: nat, size: nat)
    requires HEADER <= user <= |mem| == GRANULE * |shadow|
    requires HeaderAt(x, mem, user).magic == MagicFor(user, LIVE_XOR) ==> InBounds(HeaderAt(x, mem, user), user, |mem|)
  {
    var h := HeaderAt(x, mem, user);
    && h.magic == MagicFor(user, LIVE_XOR) && h.crc == CrcOf(x, mem, user) && h.userSize == size
    && RedzoneOk(shadow, user - h.leftRz, h.leftRz, HEAP_LEFT_RZ)
    && RedzoneOk(shadow, user + h.userSize, RightRz(h), HEAP_RIGHT_RZ)
    && forall a :: user <= a < user + size ==> Addressable(shadow, a)
  }

  /** What kasan_check_free reports: the first of its tests that fails. */
  ghost function Fault(x: Abi, mem: seq<byte>, shadow: seq<byte>, user: nat, size: nat): Option<Reason>
    requires HEADER <= user <= |mem| == GRANULE * |shadow|
    requires HeaderAt(x, mem, user).magic == MagicFor(user, LIVE_XOR) ==> InBounds(HeaderAt(x, mem, user), user, |mem|)
  {
    var h := HeaderAt(x, mem, user);
    if h.magic != MagicFor(user, LIVE_XOR) then Some(BadMetadata)
    else if h.crc != CrcOf(x, mem, user) then Some(ModOob)
    else if h.userSize != size then Some(InvalidSize)
    else if !RedzoneOk(shadow, user - h.leftRz, h.leftRz, HEAP_LEFT_RZ)
         || !RedzoneOk(shadow, user + h.userSize, RightRz(h), HEAP_RIGHT_RZ) then Some(BadMetadata)
    else if exists a :: user <= a < user + size && !Addressable(shadow, a) then Some(PoisonedRange)
    else None
  }

  /** kasan_check_free: the first violation, if any. */
  method CheckFree(x: Abi, mem: array<byte>, shadow: array<byte>, user: nat, size: nat) returns (r: Option<Reason>)
    requires AbiOk(x) && mem != shadow && mem.Length == GRANULE * shadow.Length && HEADER <= user <= mem.Length
      && user % GRANULE == 0
    requires HeaderAt(x, mem[..], user).magic == MagicFor(user, LIVE_XOR) ==>
      InBounds(HeaderAt(x, mem[..], user), user, mem.Length)
    modifies mem
    ensures mem[..] == old(mem[..])
    ensures r == Fault(x, mem[..], shadow[..], user, size)
    ensures r.None? <==> Sound(x, mem[..], shadow[..], user, size)
  {
    var h := x.dec(mem[user - HEADER..user]);
    assert h == HeaderAt(x, mem[..], user);
    if h.magic != MagicFor(user, LIVE_XOR) { return Some(BadMetadata); }
    var sum := AllocCrc(x, mem, user);
    if h.crc != sum { return Some(ModOob); }
    if h.userSize != size { return Some(InvalidSize); }
    var ok := CheckShadow(shadow, user - h.leftRz, h.leftRz, HEAP_LEFT_RZ);
    if !ok { return Some(BadMetadata); }
    ok := CheckShadow(shadow, user + h.userSize, RightRz(h), HEAP_RIGHT_RZ);
    if !ok { return Some(BadMetadata); }
    var bad, invalid := RangePoisoned(shadow, user, size);
    if bad { return Some(PoisonedRange); }
    return None;
  }

  lemma {:induction false} RightGranule(b: Block, g: nat)
    requires b.base % GRANULE == 0 && b.left % GRANULE == 0 && b.base + b.left + b.req <= GRANULE * g
    ensures b.base / GRANULE <= g && PoisonByte(g - b.base / GRANULE, b.req, b.left, HEAP_RZ) == HEAP_RIGHT_RZ
  {
  }

  /** An intact allocation passes the check made with its own size. */
  lemma {:induction false} IntactIsSound(x: Abi, mem: seq<byte>, shadow: seq<byte>, b: Block)
    requires |mem| == GRANULE * |shadow| && HeaderIntact(x, mem, b) && ShadowIntact(shadow, b)
    ensures Sound(x, mem, shadow, b.base + b.left, b.req)
  {
    IntactShadow(shadow, b);
  }

  lemma {:induction false} IntactShadow(shadow: seq<byte>, b: Block)
    requires ShadowIntact(shadow, b)
    ensures RedzoneOk(shadow, b.base, b.left, HEAP_LEFT_RZ)
    ensures RedzoneOk(shadow, b.base + b.left + b.req, b.size - b.left - b.req, HEAP_RIGHT_RZ)
    ensures forall a :: b.base + b.left <= a < b.base + b.left + b.req ==> Addressable(shadow, a)
  {
    var user := b.base + b.left;
    forall g | b.base <= GRANULE * g < user ensures shadow[g] == HEAP_LEFT_RZ {}
    forall g | user + b.req <= GRANULE * g < b.base + b.size ensures shadow[g] == HEAP_RIGHT_RZ { RightGranule(b, g); }
    forall a | user <= a < user + b.req ensures Addressable(shadow, a) {
      PoisonTruth(shadow, b.base, b.req, b.left, b.size - b.req - b.left, HEAP_RZ, a);
    }
  }

  /** The checksum tells these contents of two redzones apart. */
  predicate TellsApart(crc: (nat, seq<byte>) -> nat, l: seq<byte>, r: seq<byte>, l': seq<byte>, r': seq<byte>) {
    (l == l' && r == r') || crc(crc(0, l), r) % 0x1_0000 != crc(crc(0, l'), r') % 0x1_0000
  }

  /** A byte written into either redzone of a block, outside its header, is reported on free, if the
      checksum tells the contents apart. */
  lemma {:induction false} OverwriteReported(x: Abi, mem: seq<byte>, mem': seq<byte>, shadow: seq<byte>, b: Block,
                                             k: nat, size: nat)
    requires HeaderIntact(x, mem, b) && |mem| == |mem'| == GRANULE * |shadow|
    requires var user := b.base + b.left; mem'[user - 16..user] == mem[user - 16..user]
    requires b.base <= k < b.base + b.left - 16 || b.base + b.left + b.req <= k < b.base + b.size
    requires mem'[k] != mem[k]
    requires TellsApart(x.crc, LeftBytes(x, mem, b), RightBytes(mem, b), LeftBytes(x, mem', b), RightBytes(mem', b))
    ensures Fault(x, mem', shadow, b.base + b.left, size) == Some(ModOob)
  {
    var user := b.base + b.left;
    assert HeaderAt(x, mem', user) == HeaderAt(x, mem, user);
    CrcBytes(x, mem, b);
    CrcBytes(x, mem', b);
    RedzoneDiffers(x, mem, mem', b, k);
  }

  lemma {:induction false} RedzoneDiffers(x: Abi, mem: seq<byte>, mem': seq<byte>, b: Block, k: nat)
    requires HEADER <= b.left && b.left + b.req <= b.size && b.base + b.size <= |mem| == |mem'|
    requires b.base <= k < b.base + b.left - 16 || b.base + b.left + b.req <= k < b.base + b.size
    requires mem'[k] != mem[k]
    ensures LeftBytes(x, mem, b) != LeftBytes(x, mem', b) || RightBytes(mem, b) != RightBytes(mem', b)
  {
    var user := b.base + b.left;
    if k < user {
      ByteAt(mem, b.base, user - 16, k, x.enc(HeaderAt(x, mem, user).(crc := 0)));
      ByteAt(mem', b.base, user - 16, k, x.enc(HeaderAt(x, mem', user).(crc := 0)));
    } else {
      ByteAt(mem, user + b.req, b.base + b.size, k, []);
      ByteAt(mem', user + b.req, b.base + b.size, k, []);
    }
  }

  lemma {:induction false} ByteAt(mem: seq<byte>, lo: nat, hi: nat, k: nat, tail: seq<byte>)
    requires lo <= k < hi <= |mem|
    ensures (mem[lo..hi] + tail)[k - lo] == mem[k] == mem[lo..hi][k - lo]
  {
  }

  /** Each of the other tests finds what it is for: another magic, another size, a redzone marked as
      neither valid nor its own, and a user's byte that may not be accessed. */
  lemma {:induction false} MismatchReported(x: Abi, mem: seq<byte>, shadow: seq<byte>, user: nat, size: nat, g: nat,
                                            a: nat)
    requires HEADER <= user <= |mem| == GRANULE * |shadow|
    requires HeaderAt(x, mem, user).magic == MagicFor(user, LIVE_XOR) ==> InBounds(HeaderAt(x, mem, user), user, |mem|)
    ensures var h, r := HeaderAt(x, mem, user), Fault(x, mem, shadow, user, size);
      && (h.magic != MagicFor(user, 0x3a65) ==> r == Some(BadMetadata))
      && (h.userSize != size ==> r.Some?)
      && (user - h.leftRz <= 8 * g < user && shadow[g] !in {0, 0xfa} ==> r.Some?)
      && (user + h.userSize <= 8 * g < user - h.leftRz + h.allocSize && g < |shadow| && shadow[g] !in {0, 0xfb} ==>
            r.Some?)
      && (user <= a < user + size && a / 8 < |shadow| && !Addressable(shadow, a) ==> r.Some?)
  {
  }

  /** kasan_dealloc: the original allocation; the magic is cleared. */
  method Dealloc(x: Abi, mem: array<byte>, user: nat, ghost b: Block) returns (base: nat, size: nat)
    requires AbiOk(x) && HEADER <= user <= mem.Length
    modifies mem
    ensures user == b.base + b.left && old(HeaderIntact(x, mem[..], b)) ==> base == b.base && size == b.size
    ensures HeaderAt(x, mem[..], user) == old(HeaderAt(x, mem[..], user)).(magic := 0)
    ensures forall k :: 0 <= k < mem.Length && !(user - HEADER <= k < user) ==> mem[k] == old(mem[k])
  {
    var h := x.dec(mem[user - HEADER..user]);
    assert h == HeaderAt(x, mem[..], user);
    ghost var was := mem[..];
    StoreBytes(mem, user - HEADER, x.enc(h.(magic := 0)));
    StoreHeader(x, mem[..], was, user, h.(magic := 0));
    base, size := if h.leftRz <= user then user - h.leftRz else 0x1_0000_0000_0000_0000 + user - h.leftRz, h.allocSize;
  }
}
