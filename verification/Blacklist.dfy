/** The dynamic blacklist of KASan (san/kasan_dynamic_blacklist.c): a bounded cache of call
    sites in front of a search through the loaded ranges and their symbols.

    The red-black tree of ranges is taken as the set of ranges it holds. */
module Blacklist {
  import opened Wrappers

  const MAX_FRAMES := 8
  const NBUCKETS := 128
  const CACHE_ENTRIES := 128
  const MAX_NAME := 64
  const MAX_FUNC := 128

  /** A rule: kinds of access to be ignored, in a kext, a function, or both. */
  datatype Rule = Rule(kext: Option<string>, func: Option<string>, mask: bv32)

  datatype Symbol = Symbol(value: nat, name: string, usable: bool)

  /** An executable segment of a loaded kext. */
  datatype Range = Range(base: nat, size: nat, accessed: bool, bundle: Option<string>, syms: seq<Symbol>)

  /** A cached call site and the rule it is an instance of. */
  datatype Site = Site(addr: nat, rule: nat)

  // ----- Ranges ---------------------------------------------------------------------------------

  datatype Order = Before | Same | After | BadCompare

  /** range_tree_cmp: a size of zero marks a key to look up. */
  function Compare(e: Range, f: Range): Order {
    if e.size == 0 || f.size == 0 then
      if e.base + e.size < f.base then Before else if e.base > f.base + f.size then After else Same
    else
      if e.base + e.size <= f.base then Before else if e.base >= f.base + f.size then After else BadCompare
  }

  /** A range covers its end address too. */
  predicate Covers(e: Range, addr: nat) {
    e.base <= addr <= e.base + e.size
  }

  /** Two ranges with at least a byte between them. */
  predicate Apart(e: Range, f: Range) {
    e.base + e.size < f.base || f.base + f.size < e.base
  }

  function Key(addr: nat): Range {
    Range(addr, 0, false, None, [])
  }

  /** On ranges that are apart the comparison is an order, a key is equal exactly to the
      range that covers it, and on either side of a range it compares as that range does. */
  lemma {:induction false} CompareOrder(e: Range, f: Range, addr: nat)
    requires Apart(e, f)
    ensures Compare(e, f) != BadCompare && Compare(e, f) != Same
    ensures Compare(e, f) == Before <==> Compare(f, e) == After
    ensures Compare(Key(addr), e) == Same <==> Covers(e, addr)
    ensures Compare(e, f) == Before && Compare(Key(addr), e) != After ==> Compare(Key(addr), f) == Before
    ensures Compare(e, f) == Before && Compare(Key(addr), f) != Before ==> Compare(Key(addr), e) == After
  {
  }

  /** The comparison accepts ranges that touch, and then both cover the address between them:
      it tells every address apart exactly when there is a byte between the two. */
  lemma {:induction false} ApartExact(e: Range, f: Range)
    requires 0 < e.size && 0 < f.size && Compare(e, f) != BadCompare
    ensures Apart(e, f) <==> forall addr :: !(Covers(e, addr) && Covers(f, addr))
  {
    if !Apart(e, f) {
      var addr := if e.base < f.base then f.base else e.base;
      assert Covers(e, addr) && Covers(f, addr);
    }
  }

  type Ranges = map<nat, Range>

  ghost predicate RangesOk(ranges: Ranges) {
    && (forall k <- ranges :: ranges[k].base == k)
    && forall j, k :: j in ranges && k in ranges && j != k ==> Apart(ranges[j], ranges[k])
  }

  // ----- Names ----------------------------------------------------------------------------------

  function Cut(s: string, n: nat): string {
    if |s| <= n then s else s[..n]
  }

  /** strncmp(a, b, n) == 0 */
  predicate SameName(a: string, b: string, n: nat) {
    Cut(a, n) == Cut(b, n)
  }

  /** The character a C string has at a place: a zero ends it. */
  function CharAt(s: string, i: nat): char { if i < |s| then s[i] else '\0' }

  /** Two names are the same exactly if they agree in each of the first `n` characters. */
  lemma {:induction false} SameNameExact(a: string, b: string, n: nat)
    requires '\0' !in a && '\0' !in b
    ensures SameName(a, b, n) <==> forall i :: 0 <= i < n ==> CharAt(a, i) == CharAt(b, i)
  {
    forall i: nat | i < n ensures CharAt(Cut(a, n), i) == CharAt(a, i) && CharAt(Cut(b, n), i) == CharAt(b, i) {}
    if forall i :: 0 <= i < n ==> CharAt(a, i) == CharAt(b, i) {
      SameChars(Cut(a, n), Cut(b, n), n);
    }
  }

  lemma {:induction false} SameChars(x: string, y: string, n: nat)
    requires |x| <= n && |y| <= n && '\0' !in x && '\0' !in y
    requires forall i :: 0 <= i < n ==> CharAt(x, i) == CharAt(y, i)
    ensures x == y
  {
    assert n > 0 ==> CharAt(x, 0) == CharAt(y, 0);
    assert (x != [] ==> x[0] in x) && (y != [] ==> y[0] in y);
    if x != [] && y != [] {
      forall i: nat | i < n - 1 ensures CharAt(x[1..], i) == CharAt(y[1..], i) {
        assert CharAt(x, i + 1) == CharAt(y, i + 1);
      }
      SameChars(x[1..], y[1..], n - 1);
      assert x == [x[0]] + x[1..] && y == [y[0]] + y[1..];
    }
  }

  /** The part of a bundle identifier after its last dot. */
  function LastPart(s: string): string {
    if s == [] || s[|s| - 1] == '.' then [] else LastPart(s[..|s| - 1]) + [s[|s| - 1]]
  }

  lemma {:induction false} LastPartExact(s: string)
    ensures var t := LastPart(s);
      '.' !in t && |t| <= |s| && s[|s| - |t|..] == t && (|t| < |s| ==> s[|s| - |t| - 1] == '.')
  {
    if s != [] && s[|s| - 1] != '.' {
      var init, last := s[..|s| - 1], s[|s| - 1];
      LastPartExact(init);
      var t := LastPart(init);
      assert LastPart(s) == t + [last];
      assert s == init + [last];
      assert s[|s| - |t| - 1..] == init[|init| - |t|..] + [last];
    }
  }

  function Stripped(name: string): string {
    if name != [] && name[0] == '_' then name[1..] else name
  }

  /** Symbol `i` is the last one at or before an address: the first of those with the
      greatest value. */
  ghost predicate Closest(syms: seq<Symbol>, addr: nat, i: nat) {
    && i < |syms| && Candidate(syms[i], addr)
    && (forall j :: 0 <= j < |syms| && Candidate(syms[j], addr) ==> syms[j].value <= syms[i].value)
    && (forall j :: 0 <= j < i && Candidate(syms[j], addr) ==> syms[j].value < syms[i].value)
  }

  predicate Candidate(s: Symbol, addr: nat) {
    s.usable && 0 < s.value <= addr
  }

  ghost function FuncAt(syms: seq<Symbol>, addr: nat): Option<string> {
    if exists i: nat :: Closest(syms, addr, i)
    then var i: nat :| Closest(syms, addr, i); Some(Stripped(syms[i].name))
    else None
  }

  method AddrToFunc(addr: nat, syms: seq<Symbol>) returns (name: Option<string>)
    ensures name == FuncAt(syms, addr)
    ensures forall i: nat :: Closest(syms, addr, i) ==>
      var s := syms[i].name; name == Some(if s != [] && s[0] == '_' then s[1..] else s)
    ensures name.None? ==> forall i :: 0 <= i < |syms| && syms[i].usable && syms[i].value <= addr ==> syms[i].value == 0
  {
    name := None;
    var cur := 0;
    ghost var at := 0;
    for i := 0 to |syms|
      invariant forall j :: 0 <= j < i && Candidate(syms[j], addr) ==> syms[j].value <= cur
      invariant if name.None? then cur == 0 else
        at < i && Candidate(syms[at], addr) && syms[at].value == cur && name.value == Stripped(syms[at].name)
        && forall j :: 0 <= j < at && Candidate(syms[j], addr) ==> syms[j].value < cur
    {
      if !syms[i].usable {
        continue;
      }
      if syms[i].value <= addr && syms[i].value > cur {
        name := Some(Stripped(syms[i].name));
        cur := syms[i].value;
        at := i;
      }
    }
    if name.Some? {
      assert Closest(syms, addr, at);
    }
  }

  // ----- The search -----------------------------------------------------------------------------

  predicate Wants(mask: bv32, kind: bv32) {
    mask & kind == kind
  }

  function KextName(e: Range): Option<string> {
    if e.bundle.Some? then Some(LastPart(e.bundle.value)) else None
  }

  /** A rule names the kext and the function, as far as both are known. */
  predicate Names(rule: Rule, kext: Option<string>, func: Option<string>) {
    && (rule.kext.Some? && kext.Some? ==> SameName(kext.value, rule.kext.value, MAX_NAME))
    && (rule.func.Some? && func.Some? ==> SameName(func.value, rule.func.value, MAX_FUNC))
  }

  ghost predicate Applies(rule: Rule, e: Range, addr: nat) {
    Covers(e, addr) && Names(rule, KextName(e), FuncAt(e.syms, addr))
  }

  /** The answer of the slow search alone: some frame lies in a loaded range for which a
      rule of this kind applies. */
  ghost predicate Listed(ranges: Ranges, rules: seq<Rule>, frames: seq<nat>, kind: bv32) {
    exists i, k, j :: Hit(ranges, rules, frames, kind, i, k, j)
  }

  ghost predicate Hit(ranges: Ranges, rules: seq<Rule>, frames: seq<nat>, kind: bv32, i: nat, k: nat, j: nat) {
    i < |frames| && k in ranges && j < |rules| && Fires(rules[j], ranges[k], frames[i], kind)
  }

  ghost predicate Fires(rule: Rule, e: Range, addr: nat, kind: bv32) {
    Wants(rule.mask, kind) && Applies(rule, e, addr)
  }

  /** The name found is that of the closest symbol, without a leading underscore. */
  lemma {:induction false} FuncIs(syms: seq<Symbol>, addr: nat, i: nat)
    requires Closest(syms, addr, i)
    ensures FuncAt(syms, addr) == Some(if syms[i].name != [] && syms[i].name[0] == '_' then syms[i].name[1..]
      else syms[i].name)
  {
  }

  /** Another function is no reason against a rule exactly if it has none, or the closest symbol has
      its name up to 128 characters, or there is no symbol. */
  lemma {:induction false} FuncExact(func: Option<string>, syms: seq<Symbol>, addr: nat)
    ensures (func.Some? && FuncAt(syms, addr).Some? ==> SameName(FuncAt(syms, addr).value, func.value, 128)) <==>
      FuncAgrees(func, syms, addr)
  {
    if exists i: nat :: Closest(syms, addr, i) {
      var i: nat :| Closest(syms, addr, i);
      FuncIs(syms, addr, i);
      forall j: nat | Closest(syms, addr, j) ensures j == i {}
    }
  }

  ghost predicate FuncAgrees(func: Option<string>, syms: seq<Symbol>, addr: nat) {
    func.None? || forall i: nat :: Closest(syms, addr, i) ==> NamedAs(syms[i].name, func.value)
  }

  predicate NamedAs(symbol: string, func: string) {
    SameName(if symbol != [] && symbol[0] == '_' then symbol[1..] else symbol, func, 128)
  }

  predicate KextAgrees(kext: Option<string>, bundle: Option<string>) {
    kext.Some? && bundle.Some? ==> SameName(LastPart(bundle.value), kext.value, 64)
  }

  lemma {:induction false} NamesExact(rule: Rule, bundle: Option<string>, func: Option<string>)
    ensures Names(rule, if bundle.Some? then Some(LastPart(bundle.value)) else None, func) <==>
      KextAgrees(rule.kext, bundle) && (rule.func.Some? && func.Some? ==> SameName(func.value, rule.func.value, 128))
  {
  }

  lemma {:induction false} AppliesExact(rule: Rule, e: Range, addr: nat)
    ensures Applies(rule, e, addr) <==>
      e.base <= addr <= e.base + e.size && KextAgrees(rule.kext, e.bundle) && FuncAgrees(rule.func, e.syms, addr)
  {
    FuncExact(rule.func, e.syms, addr);
    NamesExact(rule, e.bundle, FuncAt(e.syms, addr));
  }

  /** A rule fires exactly if its kind is wanted, the address is in the range or at its end, and
      neither its kext nor its function is another: 64 and 128 characters are compared, and a name
      that is not known never counts against it. */
  lemma {:induction false} FiresExact(rule: Rule, e: Range, addr: nat, kind: bv32)
    ensures Fires(rule, e, addr, kind) <==>
      && Wants(rule.mask, kind) && e.base <= addr <= e.base + e.size
      && KextAgrees(rule.kext, e.bundle) && FuncAgrees(rule.func, e.syms, addr)
  {
    AppliesExact(rule, e, addr);
  }

  // ----- Types ----------------------------------------------------------------------------------

  function Types(rules: seq<Rule>): bv32 {
    if rules == [] then 0 else Types(rules[..|rules| - 1]) | rules[|rules| - 1].mask
  }

  lemma {:induction false} BitsKept(a: bv32, b: bv32, kind: bv32)
    requires kind & a != 0 || kind & b != 0
    ensures kind & (a | b) != 0
  {
  }

  lemma {:induction false} WantedBit(mask: bv32, kind: bv32)
    requires mask & kind == kind && kind != 0
    ensures kind & mask != 0
  {
  }

  lemma {:induction false} TypesHas(rules: seq<Rule>, j: nat, kind: bv32)
    requires j < |rules| && Wants(rules[j].mask, kind) && kind != 0
    ensures kind & Types(rules) != 0
  {
    var n := |rules| - 1;
    if j == n {
      WantedBit(rules[j].mask, kind);
    } else {
      TypesHas(rules[..n], j, kind);
    }
    BitsKept(Types(rules[..n]), rules[n].mask, kind);
  }

  // ----- The cache ------------------------------------------------------------------------------

  function HashAddr(addr: nat): (b: nat)
    ensures b < 128
  {
    ((addr % 128) as bv7 ^ (addr / 128 % 128) as bv7) as nat
  }

  type Buckets = seq<seq<nat>>

  /** Every chain lists cache entries of its own bucket, and every entry is on its chain. */
  ghost predicate ChainsOk(cache: seq<Site>, buckets: Buckets) {
    && |buckets| == 128 && |cache| <= CACHE_ENTRIES
    && (forall b, c :: 0 <= b < NBUCKETS && 0 <= c < |buckets[b]| ==>
          buckets[b][c] < |cache| && HashAddr(cache[buckets[b][c]].addr) == b)
    && forall c :: 0 <= c < |cache| ==> c in buckets[HashAddr(cache[c].addr)]
  }

  /** A loaded range, marked as accessed, for which the cached rule applies. */
  ghost predicate Justified(ranges: Ranges, rules: seq<Rule>, s: Site) {
    s.rule < |rules| && exists k :: k in ranges && ranges[k].accessed && Applies(rules[s.rule], ranges[k], s.addr)
  }

  ghost predicate CacheOk(cache: seq<Site>, ranges: Ranges, rules: seq<Rule>) {
    forall c :: 0 <= c < |cache| ==> Justified(ranges, rules, cache[c])
  }

  /** What the cache says is what the search would say. */
  lemma {:induction false} CachedListed(ranges: Ranges, rules: seq<Rule>, s: Site, frames: seq<nat>, kind: bv32, i: nat)
    requires Justified(ranges, rules, s) && i < |frames| && frames[i] == s.addr && Wants(rules[s.rule].mask, kind)
    ensures Listed(ranges, rules, frames, kind)
  {
    var k :| k in ranges && ranges[k].accessed && Applies(rules[s.rule], ranges[k], s.addr);
    assert Hit(ranges, rules, frames, kind, i, k, s.rule);
  }

  /** A kind without any rule needs no search. */
  lemma {:induction false} NoRule(ranges: Ranges, rules: seq<Rule>, frames: seq<nat>, kind: bv32)
    requires kind & Types(rules) == 0 && kind != 0
    ensures !Listed(ranges, rules, frames, kind)
  {
    if Listed(ranges, rules, frames, kind) {
      var i, k, j :| Hit(ranges, rules, frames, kind, i, k, j);
      TypesHas(rules, j, kind);
    }
  }

  lemma {:induction false} CacheMarked(cache: seq<Site>, ranges: Ranges, rules: seq<Rule>, k: nat)
    requires CacheOk(cache, ranges, rules) && k in ranges
    ensures CacheOk(cache, ranges[k := ranges[k].(accessed := true)], rules)
  {
    var marked := ranges[k := ranges[k].(accessed := true)];
    forall c | 0 <= c < |cache|
      ensures Justified(marked, rules, cache[c])
    {
      assert Justified(ranges, rules, cache[c]);
      var m :| m in ranges && ranges[m].accessed && Applies(rules[cache[c].rule], ranges[m], cache[c].addr);
      assert m in marked && marked[m].accessed && Applies(rules[cache[c].rule], marked[m], cache[c].addr);
    }
  }

  lemma {:induction false} CacheInserted(cache: seq<Site>, ranges: Ranges, rules: seq<Rule>, k: nat, e: Range)
    requires CacheOk(cache, ranges, rules) && k !in ranges
    ensures CacheOk(cache, ranges[k := e], rules)
  {
    forall c | 0 <= c < |cache|
      ensures Justified(ranges[k := e], rules, cache[c])
    {
      assert Justified(ranges, rules, cache[c]);
      var m :| m in ranges && ranges[m].accessed && Applies(rules[cache[c].rule], ranges[m], cache[c].addr);
      assert m in ranges[k := e] && ranges[k := e][m] == ranges[m];
    }
  }

  /** A range nothing in the cache rests on can go. */
  lemma {:induction false} CacheRemoved(cache: seq<Site>, ranges: Ranges, rules: seq<Rule>, k: nat)
    requires CacheOk(cache, ranges, rules) && k in ranges && !ranges[k].accessed
    ensures CacheOk(cache, ranges - {k}, rules)
  {
    forall c | 0 <= c < |cache|
      ensures Justified(ranges - {k}, rules, cache[c])
    {
      assert Justified(ranges, rules, cache[c]);
      var m :| m in ranges && ranges[m].accessed && Applies(rules[cache[c].rule], ranges[m], cache[c].addr);
      assert m in ranges - {k} && (ranges - {k})[m] == ranges[m];
    }
  }

  class DynamicBlacklist {
    const rules: seq<Rule>
    const types: bv32
    var cache: seq<Site>
    var buckets: Buckets
    var ranges: Ranges

    ghost predicate Valid()
      reads this
    {
      types == Types(rules) && ChainsOk(cache, buckets) && RangesOk(ranges) && CacheOk(cache, ranges, rules)
    }

    constructor (rules: seq<Rule>)
      ensures Valid() && this.rules == rules && ranges == map[] && cache == []
    {
      var t := 0;
      for j := 0 to |rules|
        invariant t == Types(rules[..j])
      {
        assert rules[..j + 1][..j] == rules[..j];
        t := t | rules[j].mask;
      }
      assert rules[..|rules|] == rules;
      this.rules, types := rules, t;
      cache, buckets, ranges := [], seq(NBUCKETS, _ => []), map[];
    }

    /** The cache entry for a call site. */
    method Lookup(addr: nat) returns (site: Option<Site>)
      requires Valid()
      ensures site.None? ==> forall c :: 0 <= c < |cache| ==> cache[c].addr != addr
      ensures site.Some? ==> site.value in cache && site.value.addr == addr
    {
      var chain := buckets[HashAddr(addr)];
      for c := 0 to |chain|
        invariant forall d :: 0 <= d < c ==> chain[d] < |cache| && cache[chain[d]].addr != addr
      {
        if cache[chain[c]].addr == addr {
          return Some(cache[chain[c]]);
        }
      }
      site := None;
      forall c | 0 <= c < |cache|
        ensures cache[c].addr != addr
      {
        assert c in buckets[HashAddr(cache[c].addr)];
      }
    }

    /** Caches a call site, unless the cache is full. */
    method HashAdd(addr: nat, rule: nat)
      requires Valid() && Justified(ranges, rules, Site(addr, rule))
      modifies this`cache, this`buckets
      ensures Valid()
      ensures cache == if old(|cache|) < 128 then old(cache) + [Site(addr, rule)] else old(cache)
    {
      if |cache| >= CACHE_ENTRIES {
        return;
      }
      var b, c := HashAddr(addr), |cache|;
      ghost var cache0, buckets0 := cache, buckets;
      cache := cache + [Site(addr, rule)];
      buckets := buckets[b := [c] + buckets[b]];
      AddedOk(cache0, buckets0, addr, rule);
    }

    method HashDrop()
      modifies this`cache, this`buckets
      ensures cache == [] && (old(|cache|) > 0 ==> buckets == seq(NBUCKETS, _ => []))
      ensures old(|cache|) == 0 ==> buckets == old(buckets)
    {
      if |cache| > 0 {
        buckets := seq(NBUCKETS, _ => []);
        cache := [];
      }
    }

    /** The range that covers an address: RB_FIND with a key of size zero. */
    method Find(addr: nat) returns (k: Option<nat>)
      requires Valid()
      ensures k == FindKey(ranges, addr)
    {
      if exists m :: m in ranges && Covers(ranges[m], addr) {
        var m :| m in ranges && Covers(ranges[m], addr);
        FindUnique(ranges, addr, m);
        k := Some(m);
      } else {
        k := None;
      }
    }

    /** Loading a kext adds a range for each executable segment. */
    method LoadKext(segs: seq<Segment>, bundle: Option<string>, syms: seq<Symbol>)
      requires Valid() && RoomFor(ranges, segs)
      modifies this`ranges
      ensures Valid() && ranges == Loaded(old(ranges), segs, bundle, syms)
    {
      for i := 0 to |segs|
        invariant Valid() && RoomFor(ranges, segs[i..])
        invariant Loaded(ranges, segs[i..], bundle, syms) == Loaded(old(ranges), segs, bundle, syms)
      {
        assert segs[i..][0] == segs[i] && segs[i..][1..] == segs[i + 1..];
        RoomNext(ranges, segs[i..], bundle, syms);
        if segs[i].exec {
          CacheInserted(cache, ranges, rules, segs[i].vmaddr, RangeOf(segs[i], bundle, syms));
          ranges := ranges[segs[i].vmaddr := RangeOf(segs[i], bundle, syms)];
        }
      }
    }

    /** Unloading it takes them out, and empties the cache if anything in it can rest on them. */
    method UnloadKext(segs: seq<Segment>)
      requires Valid()
      modifies this
      ensures Valid() && ranges == Unloaded(old(ranges), segs)
      ensures cache == old(cache) || cache == []
    {
      for i := 0 to |segs|
        invariant Valid() && Unloaded(ranges, segs[i..]) == Unloaded(old(ranges), segs)
        invariant cache == old(cache) || cache == []
      {
        assert segs[i..][0] == segs[i] && segs[i..][1..] == segs[i + 1..];
        if segs[i].exec {
          UnloadAt(segs[i].vmaddr);
        }
      }
    }

    method UnloadAt(addr: nat)
      requires Valid()
      modifies this
      ensures Valid() && ranges == Without(old(ranges), addr)
      ensures cache == old(cache) || cache == []
    {
      var k := Find(addr);
      if k.Some? {
        if ranges[k.value].accessed {
          ranges := ranges - {k.value};
          HashDrop();
        } else {
          CacheRemoved(cache, ranges, rules, k.value);
          ranges := ranges - {k.value};
        }
      }
    }

    /** Whether a violation of this kind, with this call stack, is to be ignored.  At most eight
        frames are looked at, and the first, the caller itself, does not count.  The answer is
        that of the search alone. */
    method IsBlacklisted(kind: bv32, stack: seq<nat>) returns (r: bool)
      requires Valid() && kind != 0
      modifies this
      ensures Valid() && SameRanges(old(ranges), ranges)
      ensures r <==> Listed(old(ranges), rules,
        if stack == [] then [] else if |stack| <= 8 then stack[1..] else stack[1..8], kind)
    {
      var frames := if |stack| <= MAX_FRAMES then stack else stack[..MAX_FRAMES];
      if kind & types == 0 {
        NoRule(ranges, rules, if stack == [] then [] else if |stack| <= 8 then stack[1..] else stack[1..8], kind);
        return false;
      }
      var bt := Callers(frames);
      assert bt == if stack == [] then [] else if |stack| <= 8 then stack[1..] else stack[1..8];
      r := AnyCached(kind, bt);
      if !r {
        r := Search(kind, bt);
      }
    }

    method AnyCached(kind: bv32, bt: seq<nat>) returns (r: bool)
      requires Valid()
      ensures r ==> Listed(ranges, rules, bt, kind)
    {
      for i := 0 to |bt| {
        var site := Lookup(bt[i]);
        if site.Some? {
          assert Justified(ranges, rules, site.value);
          if Wants(rules[site.value.rule].mask, kind) {
            CachedListed(ranges, rules, site.value, bt, kind, i);
            return true;
          }
        }
      }
      r := false;
    }

    method Search(kind: bv32, bt: seq<nat>) returns (r: bool)
      requires Valid()
      modifies this
      ensures Valid() && SameRanges(old(ranges), ranges)
      ensures r <==> Listed(old(ranges), rules, bt, kind)
    {
      for i := 0 to |bt|
        invariant Valid() && ranges == old(ranges)
        invariant forall h, k, j :: 0 <= h < i ==> !Hit(ranges, rules, bt, kind, h, k, j)
      {
        var k := Find(bt[i]);
        if k.None? {
          continue;
        }
        var j := MatchRule(kind, bt[i], ranges[k.value]);
        if j.Some? {
          assert Hit(ranges, rules, bt, kind, i, k.value, j.value);
          Remember(bt[i], k.value, j.value);
          return true;
        }
      }
      r := false;
    }

    /** The first rule that applies to an address of a range. */
    method MatchRule(kind: bv32, addr: nat, e: Range) returns (j: Option<nat>)
      requires Covers(e, addr)
      ensures j.Some? ==> j.value < |rules| && Fires(rules[j.value], e, addr, kind)
      ensures forall m :: 0 <= m < (if j.Some? then j.value else |rules|) ==> !Fires(rules[m], e, addr, kind)
    {
      var func := AddrToFunc(addr, e.syms);
      var kext := KextName(e);
      for m := 0 to |rules|
        invariant forall n :: 0 <= n < m ==> !Fires(rules[n], e, addr, kind)
      {
        if !Wants(rules[m].mask, kind) {
          continue;
        }
        if Names(rules[m], kext, func) {
          return Some(m);
        }
      }
      j := None;
    }

    /** Caches a call site, and marks its range. */
    method Remember(addr: nat, k: nat, j: nat)
      requires Valid() && k in ranges && j < |rules| && Applies(rules[j], ranges[k], addr)
      modifies this
      ensures Valid() && ranges == old(ranges)[k := old(ranges)[k].(accessed := true)]
    {
      CacheMarked(cache, ranges, rules, k);
      ranges := ranges[k := ranges[k].(accessed := true)];
      assert Applies(rules[j], ranges[k], addr);
      HashAdd(addr, j);
    }
  }

  function Callers(frames: seq<nat>): seq<nat> {
    if |frames| >= 1 then frames[1..] else frames
  }

  ghost predicate SameRanges(a: Ranges, b: Ranges) {
    a.Keys == b.Keys && forall k <- a :: a[k].(accessed := true) == b[k].(accessed := true)
  }

  // ----- Loading and unloading ------------------------------------------------------------------

  datatype Segment = Segment(vmaddr: nat, vmsize: nat, exec: bool)

  function RangeOf(s: Segment, bundle: Option<string>, syms: seq<Symbol>): Range {
    Range(s.vmaddr, s.vmsize, false, bundle, syms)
  }

  ghost function FindKey(ranges: Ranges, addr: nat): Option<nat> {
    if exists m :: m in ranges && Covers(ranges[m], addr)
    then var m :| m in ranges && Covers(ranges[m], addr); Some(m)
    else None
  }

  lemma {:induction false} FindUnique(ranges: Ranges, addr: nat, k: nat)
    requires RangesOk(ranges) && k in ranges && Covers(ranges[k], addr)
    ensures FindKey(ranges, addr) == Some(k)
  {
  }

  ghost function Loaded(ranges: Ranges, segs: seq<Segment>, bundle: Option<string>, syms: seq<Symbol>): Ranges
    decreases |segs|
  {
    if segs == [] then ranges
    else Loaded(if segs[0].exec then ranges[segs[0].vmaddr := RangeOf(segs[0], bundle, syms)]
      else ranges, segs[1..], bundle, syms)
  }

  ghost function Without(ranges: Ranges, addr: nat): Ranges {
    match FindKey(ranges, addr)
    case Some(k) => ranges - {k}
    case None => ranges
  }

  ghost function Unloaded(ranges: Ranges, segs: seq<Segment>): Ranges
    decreases |segs|
  {
    if segs == [] then ranges else Unloaded(if segs[0].exec then Without(ranges, segs[0].vmaddr) else ranges, segs[1..])
  }

  ghost predicate ApartFrom(s: Segment, e: Range) {
    Apart(Range(s.vmaddr, s.vmsize, false, None, []), e)
  }

  /** The executable segments keep a byte away from each other and from all loaded ranges. */
  ghost predicate RoomFor(ranges: Ranges, segs: seq<Segment>) {
    && (forall i, k :: 0 <= i < |segs| && segs[i].exec && k in ranges ==> ApartFrom(segs[i], ranges[k]))
    && forall i, j :: 0 <= i < j < |segs| && segs[i].exec && segs[j].exec ==>
      ApartFrom(segs[j], RangeOf(segs[i], None, []))
  }

  lemma {:induction false} RoomNext(ranges: Ranges, segs: seq<Segment>, bundle: Option<string>, syms: seq<Symbol>)
    requires RangesOk(ranges) && RoomFor(ranges, segs) && segs != []
    ensures var next := if segs[0].exec then ranges[segs[0].vmaddr := RangeOf(segs[0], bundle, syms)] else ranges;
      && RangesOk(next) && RoomFor(next, segs[1..]) && (segs[0].exec ==> segs[0].vmaddr !in ranges)
  {
    if segs[0].exec {
      forall j | 0 < j < |segs| && segs[j].exec
        ensures ApartFrom(segs[j], RangeOf(segs[0], bundle, syms))
      {
        assert ApartFrom(segs[j], RangeOf(segs[0], None, []));
      }
      forall k | k in ranges
        ensures Apart(RangeOf(segs[0], bundle, syms), ranges[k])
      {
        assert ApartFrom(segs[0], ranges[k]);
      }
    }
  }

  ghost function Bases(segs: seq<Segment>): set<nat> {
    if segs == [] then {} else (if segs[0].exec then {segs[0].vmaddr} else {}) + Bases(segs[1..])
  }

  lemma {:induction false} BaseOf(segs: seq<Segment>, b: nat) returns (i: nat)
    requires b in Bases(segs)
    ensures i < |segs| && segs[i].exec && segs[i].vmaddr == b
  {
    if segs[0].exec && segs[0].vmaddr == b {
      i := 0;
    } else {
      i := BaseOf(segs[1..], b);
      i := i + 1;
    }
  }

  lemma {:induction false} OwnBase(segs: seq<Segment>)
    requires segs != [] && segs[0].exec && RoomFor(map[], segs)
    ensures segs[0].vmaddr !in Bases(segs[1..])
  {
    forall b | b in Bases(segs[1..])
      ensures b != segs[0].vmaddr
    {
      var i := BaseOf(segs[1..], b);
      assert ApartFrom(segs[i + 1], RangeOf(segs[0], None, []));
    }
  }

  lemma {:induction false} LoadedKeys(ranges: Ranges, segs: seq<Segment>, bundle: Option<string>, syms: seq<Symbol>)
    requires RangesOk(ranges) && RoomFor(ranges, segs)
    ensures var l := Loaded(ranges, segs, bundle, syms);
      && RangesOk(l) && l.Keys == ranges.Keys + Bases(segs) && ranges.Keys !! Bases(segs)
      && forall k <- ranges :: l[k] == ranges[k]
    decreases |segs|
  {
    if segs != [] {
      RoomNext(ranges, segs, bundle, syms);
      if segs[0].exec {
        var next := ranges[segs[0].vmaddr := RangeOf(segs[0], bundle, syms)];
        LoadedKeys(next, segs[1..], bundle, syms);
        MoreKeys(ranges, next, segs[0].vmaddr, Bases(segs[1..]), Bases(segs), Loaded(next, segs[1..], bundle, syms));
      } else {
        LoadedKeys(ranges, segs[1..], bundle, syms);
        assert Bases(segs) == Bases(segs[1..]);
      }
    }
  }

  lemma {:induction false} MoreKeys(ranges: Ranges, next: Ranges, b: nat, rest: set<nat>, all: set<nat>, l: Ranges)
    requires b !in ranges && next.Keys == ranges.Keys + {b} && all == {b} + rest && next.Keys !! rest
    requires l.Keys == next.Keys + rest && (forall k <- next :: l[k] == next[k])
      && (forall k <- ranges :: next[k] == ranges[k])
    ensures l.Keys == ranges.Keys + all && ranges.Keys !! all && forall k <- ranges :: l[k] == ranges[k]
  {
    assert forall k <- ranges :: k in next;
    forall k | k in ranges
      ensures k !in all && k in l && l[k] == ranges[k]
    {
      assert k in next.Keys;
    }
  }

  lemma {:induction false} UnloadedKeys(ranges: Ranges, segs: seq<Segment>)
    requires RangesOk(ranges) && Bases(segs) <= ranges.Keys && RoomFor(map[], segs)
    ensures Unloaded(ranges, segs) == ranges - Bases(segs)
    decreases |segs|
  {
    if segs != [] {
      RoomNext(map[], segs, None, []);
      var b := segs[0].vmaddr;
      if segs[0].exec {
        FindUnique(ranges, b, b);
        OwnBase(segs);
        UnloadedKeys(ranges - {b}, segs[1..]);
        assert ranges - {b} - Bases(segs[1..]) == ranges - Bases(segs);
      } else {
        UnloadedKeys(ranges, segs[1..]);
      }
    }
  }

  /** Each executable segment is there as it was given, and not yet accessed. */
  lemma {:induction false} LoadedRange(ranges: Ranges, segs: seq<Segment>, bundle: Option<string>, syms: seq<Symbol>,
                                       i: nat)
    requires RangesOk(ranges) && RoomFor(ranges, segs) && i < |segs| && segs[i].exec
    ensures var l, k := Loaded(ranges, segs, bundle, syms), segs[i].vmaddr;
      k in l && l[k] == Range(k, segs[i].vmsize, false, bundle, syms)
    decreases |segs|
  {
    RoomNext(ranges, segs, bundle, syms);
    var next := if segs[0].exec then ranges[segs[0].vmaddr := RangeOf(segs[0], bundle, syms)] else ranges;
    if i > 0 {
      LoadedRange(next, segs[1..], bundle, syms, i - 1);
    } else {
      LoadedKeys(next, segs[1..], bundle, syms);
    }
  }

  /** And nothing else is new. */
  lemma {:induction false} LoadedOnly(ranges: Ranges, segs: seq<Segment>, bundle: Option<string>, syms: seq<Symbol>,
                                      k: nat)
    returns (i: nat)
    requires RangesOk(ranges) && RoomFor(ranges, segs) && k in Loaded(ranges, segs, bundle, syms) && k !in ranges
    ensures i < |segs| && segs[i].exec && segs[i].vmaddr == k
  {
    LoadedKeys(ranges, segs, bundle, syms);
    i := BaseOf(segs, k);
  }

  /** Unloading undoes loading, whatever was looked up in between. */
  lemma {:induction false} UnloadUndoes(ranges: Ranges, now: Ranges, segs: seq<Segment>, bundle: Option<string>,
                                        syms: seq<Symbol>)
    requires RangesOk(ranges) && RoomFor(ranges, segs) && SameRanges(Loaded(ranges, segs, bundle, syms), now)
    ensures SameRanges(ranges, Unloaded(now, segs))
  {
    LoadedKeys(ranges, segs, bundle, syms);
    UnloadedKeys(now, segs);
  }

  /** The search does not look at the marks. */
  lemma {:induction false} MarksIgnored(a: Ranges, b: Ranges, rules: seq<Rule>, frames: seq<nat>, kind: bv32)
    requires SameRanges(a, b) && Listed(a, rules, frames, kind)
    ensures Listed(b, rules, frames, kind)
  {
    var i, k, j :| Hit(a, rules, frames, kind, i, k, j);
    assert a[k].(accessed := true) == b[k].(accessed := true);
    assert Hit(b, rules, frames, kind, i, k, j);
  }

  lemma {:induction false} AddedOk(cache: seq<Site>, buckets: Buckets, addr: nat, rule: nat)
    requires ChainsOk(cache, buckets) && |cache| < CACHE_ENTRIES
    ensures ChainsOk(cache + [Site(addr, rule)], buckets[HashAddr(addr) := [|cache|] + buckets[HashAddr(addr)]])
  {
    var h := HashAddr(addr);
    var cache2, buckets2 := cache + [Site(addr, rule)], buckets[h := [|cache|] + buckets[h]];
    forall c | 0 <= c < |cache2|
      ensures c in buckets2[HashAddr(cache2[c].addr)]
    {
      if c < |cache| {
        assert c in buckets[HashAddr(cache[c].addr)];
      } else {
        assert buckets2[h][0] == c;
      }
    }
  }
}
