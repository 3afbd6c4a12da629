/** The string trees of the LZSS encoder (libkern/mkext.c).

    256 binary search trees live inside three flat index arrays.  A node is a
    position in the ring buffer; its key is the 18-byte string that starts there.
    Index 4096 is both the null link and a junk cell that the updates write to.

    The arrays are related to inductive trees.  `Tree` is one tree, `Ctx` a tree
    with a hole, and `RepTree`/`RepCtx` say that the links encode them.  The
    in-order sequence of a tree is strictly sorted by key, which also makes its
    nodes distinct. */
module LzssTree {
  import opened Bytes

  const N := 4096
  const F := 18
  const NIL := N

  // ----- Keys ---------------------------------------------------------------

  /** Length of the longest common prefix. */
  function Lcp(a: seq<byte>, b: seq<byte>): (k: nat)
    requires |a| == |b|
    ensures k <= |a| && a[..k] == b[..k]
    ensures k < |a| ==> a[k] != b[k]
  {
    if a == [] || a[0] != b[0] then 0 else
      var k := Lcp(a[1..], b[1..]);
      assert forall j :: 0 < j <= k ==> a[j] == a[1..][..k][j - 1] == b[1..][..k][j - 1] == b[j];
      1 + k
  }

  /** Unsigned lexicographic order of strings of equal length. */
  predicate Less(a: seq<byte>, b: seq<byte>)
    requires |a| == |b|
  {
    var k := Lcp(a, b);
    k < |a| && a[k] < b[k]
  }

  lemma {:induction false} LcpUnique(a: seq<byte>, b: seq<byte>, k: nat)
    requires |a| == |b| && k <= |a|
    requires forall j :: 0 <= j < k ==> a[j] == b[j]
    requires k < |a| ==> a[k] != b[k]
    ensures Lcp(a, b) == k
  {
    var m := Lcp(a, b);
    assert forall j :: 0 <= j < m ==> a[j] == a[..m][j] == b[..m][j] == b[j];
  }

  /** A string between two others shares at least as much with either of them
      as they share with each other. */
  lemma {:induction false} Between(a: seq<byte>, b: seq<byte>, c: seq<byte>)
    requires |a| == |b| == |c|
    requires Less(a, b) && Less(b, c)
    ensures Less(a, c)
    ensures Lcp(a, c) <= Lcp(b, c) && Lcp(a, c) <= Lcp(a, b)
    ensures Lcp(c, a) == Lcp(a, c) && Lcp(c, b) == Lcp(b, c) && Lcp(b, a) == Lcp(a, b)
  {
    var i, j := Lcp(a, b), Lcp(b, c);
    assert forall x :: 0 <= x < i ==> a[x] == a[..i][x] == b[..i][x] == b[x];
    assert forall x :: 0 <= x < j ==> b[x] == b[..j][x] == c[..j][x] == c[x];
    LcpUnique(a, c, if i < j then i else j);
    LcpUnique(c, a, if i < j then i else j);
    LcpUnique(b, a, i);
    LcpUnique(c, b, j);
  }

  // ----- Trees and trees with a hole ------------------------------------------

  datatype Tree = Leaf | Node(left: Tree, id: int, right: Tree)
  datatype Ctx = Top | LeftOf(up: Ctx, id: int, right: Tree) | RightOf(left: Tree, id: int, up: Ctx)

  function InOrder(t: Tree): seq<int> {
    match t
    case Leaf => []
    case Node(l, n, r) => InOrder(l) + [n] + InOrder(r)
  }

  function Plug(x: Ctx, t: Tree): Tree {
    match x
    case Top => t
    case LeftOf(up, n, r) => Plug(up, Node(t, n, r))
    case RightOf(l, n, up) => Plug(up, Node(l, n, t))
  }

  function Before(x: Ctx): seq<int> {
    match x
    case Top => []
    case LeftOf(up, _, _) => Before(up)
    case RightOf(l, n, up) => Before(up) + InOrder(l) + [n]
  }

  function After(x: Ctx): seq<int> {
    match x
    case Top => []
    case LeftOf(up, n, r) => [n] + InOrder(r) + After(up)
    case RightOf(_, _, up) => After(up)
  }

  lemma {:induction false} InOrderPlug(x: Ctx, t: Tree)
    ensures InOrder(Plug(x, t)) == Before(x) + InOrder(t) + After(x)
  {
    match x
    case Top =>
    case LeftOf(up, n, r) => InOrderPlug(up, Node(t, n, r));
    case RightOf(l, n, up) => InOrderPlug(up, Node(l, n, t));
  }

  /** The context of node `n` inside `Plug(x, t)`, and the subtree at `n`. */
  ghost function Focus(x: Ctx, t: Tree, n: int): (res: (Ctx, Tree))
    requires n in InOrder(t)
    ensures Plug(res.0, res.1) == Plug(x, t)
    ensures res.1.Node? && res.1.id == n
    decreases t
  {
    if t.id == n then (x, t)
    else if n in InOrder(t.left) then Focus(LeftOf(x, t.id, t.right), t.left, n)
    else Focus(RightOf(t.left, t.id, x), t.right, n)
  }

  function Nodes(t: Tree): set<int> {
    match t
    case Leaf => {}
    case Node(l, n, r) => Nodes(l) + {n} + Nodes(r)
  }

  function CtxNodes(x: Ctx): set<int> {
    match x
    case Top => {}
    case LeftOf(up, n, r) => CtxNodes(up) + {n} + Nodes(r)
    case RightOf(l, n, up) => Nodes(l) + {n} + CtxNodes(up)
  }

  /** No node occurs twice. */
  predicate Uniq(t: Tree) {
    match t
    case Leaf => true
    case Node(l, n, r) => Uniq(l) && Uniq(r) && n !in Nodes(l) && n !in Nodes(r) && Nodes(l) !! Nodes(r)
  }

  predicate UniqCtx(x: Ctx) {
    match x
    case Top => true
    case LeftOf(up, n, r) => UniqCtx(up) && Uniq(r) && n !in CtxNodes(up) && n !in Nodes(r) && CtxNodes(up) !! Nodes(r)
    case RightOf(l, n, up) => UniqCtx(up) && Uniq(l) && n !in CtxNodes(up) && n !in Nodes(l) && CtxNodes(up) !! Nodes(l)
  }

  predicate UniqSplit(x: Ctx, t: Tree) {
    UniqCtx(x) && Uniq(t) && CtxNodes(x) !! Nodes(t)
  }

  lemma {:induction false} UniqPlug(x: Ctx, t: Tree)
    ensures Uniq(Plug(x, t)) <==> UniqSplit(x, t)
    ensures Nodes(Plug(x, t)) == CtxNodes(x) + Nodes(t)
  {
    match x
    case Top =>
    case LeftOf(up, n, r) => UniqPlug(up, Node(t, n, r));
    case RightOf(l, n, up) => UniqPlug(up, Node(l, n, t));
  }

  ghost predicate Distinct(s: seq<int>) {
    forall i, j :: 0 <= i < j < |s| ==> s[i] != s[j]
  }

  lemma {:induction false} DistinctParts(a: seq<int>, n: int, c: seq<int>)
    requires Distinct(a + [n] + c)
    ensures Distinct(a) && Distinct(c) && n !in a && n !in c
    ensures forall m :: m in a ==> m !in c
  {
    var s := a + [n] + c;
    assert forall i :: 0 <= i < |a| ==> a[i] == s[i];
    assert n == s[|a|];
    assert forall i :: 0 <= i < |c| ==> c[i] == s[|a| + 1 + i];
  }

  lemma {:induction false} InOrderNodes(t: Tree)
    ensures forall n :: n in Nodes(t) <==> n in InOrder(t)
  {
    if t.Node? {
      InOrderNodes(t.left);
      InOrderNodes(t.right);
    }
  }

  lemma {:induction false} SetsDisjoint(a: set<int>, b: set<int>)
    requires forall n <- a :: n !in b
    ensures a !! b
  {
    assert forall n <- a :: n !in b;
  }

  lemma {:induction false} DistinctUniq(t: Tree)
    requires Distinct(InOrder(t))
    ensures Uniq(t)
  {
    if t.Node? {
      DistinctParts(InOrder(t.left), t.id, InOrder(t.right));
      InOrderNodes(t.left);
      InOrderNodes(t.right);
      DistinctUniq(t.left);
      DistinctUniq(t.right);
      SetsDisjoint(Nodes(t.left), Nodes(t.right));
    }
  }

  // ----- Links ------------------------------------------------------------------

  /** The contents of the arrays lchild, rchild and parent. */
  datatype Links = Links(l: seq<int>, r: seq<int>, p: seq<int>) {
    predicate Shape() { |l| == N + 1 && |r| == N + 257 && |p| == N + 1 }
  }

  function Root(t: Tree): int { if t.Leaf? then NIL else t.id }

  /** The index whose right link points at the tree for first byte `c`. */
  function Sentinel(c: byte): int { N + 1 + c }

  /** The non-null root of `t` has parent `n`. */
  predicate UpLink(h: Links, t: Tree, n: int)
    requires h.Shape()
  {
    t.Node? ==> 0 <= t.id < N && h.p[t.id] == n
  }

  /** The links below the root of `t` encode `t`. */
  predicate Rep(h: Links, t: Tree)
    requires h.Shape()
  {
    match t
    case Leaf => true
    case Node(l, n, r) =>
      && 0 <= n < N
      && h.l[n] == Root(l) && UpLink(h, l, n) && Rep(h, l)
      && h.r[n] == Root(r) && UpLink(h, r, n) && Rep(h, r)
  }

  function CtxParent(x: Ctx, c: byte): int { if x.Top? then Sentinel(c) else x.id }

  /** The links encode the context `x` in the tree of byte `c`, with `hole` where the hole is. */
  predicate RepCtx(h: Links, x: Ctx, c: byte, hole: int)
    requires h.Shape()
  {
    match x
    case Top => h.r[Sentinel(c)] == hole
    case LeftOf(up, n, r) =>
      && 0 <= n < N && h.p[n] == CtxParent(up, c)
      && h.l[n] == hole
      && h.r[n] == Root(r) && UpLink(h, r, n) && Rep(h, r)
      && RepCtx(h, up, c, n)
    case RightOf(l, n, up) =>
      && 0 <= n < N && h.p[n] == CtxParent(up, c)
      && h.r[n] == hole
      && h.l[n] == Root(l) && UpLink(h, l, n) && Rep(h, l)
      && RepCtx(h, up, c, n)
  }

  predicate RepSplit(h: Links, c: byte, x: Ctx, t: Tree)
    requires h.Shape()
  {
    RepCtx(h, x, c, Root(t)) && UpLink(h, t, CtxParent(x, c)) && Rep(h, t)
  }

  predicate RepTree(h: Links, c: byte, t: Tree)
    requires h.Shape()
  {
    RepSplit(h, c, Top, t)
  }

  /** A tree is encoded exactly when its two halves at any hole are. */
  lemma {:induction false} RepPlug(h: Links, c: byte, x: Ctx, t: Tree)
    requires h.Shape()
    ensures RepTree(h, c, Plug(x, t)) <==> RepSplit(h, c, x, t)
  {
    match x
    case Top =>
    case LeftOf(up, n, r) => RepPlug(h, c, up, Node(t, n, r));
    case RightOf(l, n, up) => RepPlug(h, c, up, Node(l, n, t));
  }

  lemma {:induction false} RepBounds(h: Links, t: Tree, n: int)
    requires h.Shape() && Rep(h, t) && n in Nodes(t)
    ensures 0 <= n < N
    ensures n != Root(t) ==> 0 <= h.p[n] < N
  {
    if n != t.id {
      RepBounds(h, if n in Nodes(t.left) then t.left else t.right, n);
    }
  }

  predicate Same(h: Links, k: Links, n: int)
    requires h.Shape() && k.Shape()
  {
    0 <= n < N ==> h.l[n] == k.l[n] && h.r[n] == k.r[n] && h.p[n] == k.p[n]
  }

  /** Rep depends only on the child links of the nodes of `t` and the parent links
      of those below its root. */
  lemma {:induction false} RepFrame(h: Links, k: Links, t: Tree)
    requires h.Shape() && k.Shape() && Rep(h, t) && Uniq(t)
    requires forall n <- Nodes(t) :: 0 <= n < N ==> h.l[n] == k.l[n] && h.r[n] == k.r[n]
    requires forall n <- Nodes(t) :: 0 <= n < N && n != Root(t) ==> h.p[n] == k.p[n]
    ensures Rep(k, t)
  {
    if t.Node? {
      RepFrame(h, k, t.left);
      RepFrame(h, k, t.right);
    }
  }

  lemma {:induction false} FrameSide(h: Links, k: Links, t: Tree, n: int)
    requires h.Shape() && k.Shape() && Rep(h, t) && UpLink(h, t, n) && Uniq(t)
    requires forall m <- Nodes(t) :: Same(h, k, m)
    ensures Rep(k, t) && UpLink(k, t, n)
  {
    RepFrame(h, k, t);
    if t.Node? { assert t.id in Nodes(t); }
  }

  /** The context survives any change outside it, when its one link to the hole is set to `v`. */
  lemma {:induction false} RepCtxFrame(h: Links, k: Links, x: Ctx, c: byte, hole: int, v: int)
    requires h.Shape() && k.Shape() && RepCtx(h, x, c, hole) && UniqCtx(x)
    requires forall n <- CtxNodes(x) :: n != CtxParent(x, c) ==> Same(h, k, n)
    requires k.r[Sentinel(c)] == if x.Top? then v else h.r[Sentinel(c)]
    requires !x.Top? ==> k.p[x.id] == h.p[x.id]
    requires x.LeftOf? ==> k.l[x.id] == v && k.r[x.id] == h.r[x.id]
    requires x.RightOf? ==> k.r[x.id] == v && k.l[x.id] == h.l[x.id]
    ensures RepCtx(k, x, c, v)
  {
    if !x.Top? {
      var side := if x.LeftOf? then x.right else x.left;
      FrameSide(h, k, side, x.id);
      assert !x.up.Top? ==> x.up.id in CtxNodes(x.up) && Same(h, k, x.up.id);
      RepCtxFrame(h, k, x.up, c, x.id, x.id);
    }
  }

  /** `x` placed around the hole of `y`. */
  function Over(y: Ctx, x: Ctx): Ctx {
    match y
    case Top => x
    case LeftOf(up, n, r) => LeftOf(Over(up, x), n, r)
    case RightOf(l, n, up) => RightOf(l, n, Over(up, x))
  }

  lemma {:induction false} PlugOver(y: Ctx, x: Ctx, t: Tree)
    ensures Plug(Over(y, x), t) == Plug(x, Plug(y, t))
    ensures Before(Over(y, x)) == Before(x) + Before(y)
    ensures After(Over(y, x)) == After(y) + After(x)
  {
    match y
    case Top =>
    case LeftOf(up, n, r) => PlugOver(up, x, Node(t, n, r));
    case RightOf(l, n, up) => PlugOver(up, x, Node(l, n, t));
  }

  // ----- The link updates of the code -------------------------------------------

  /** Setting the link from the context to the hole. */
  function SetChild(h: Links, x: Ctx, c: byte, v: int): Links
    requires h.Shape() && (!x.Top? ==> 0 <= x.id < N)
  {
    match x
    case Top => h.(r := h.r[Sentinel(c) := v])
    case LeftOf(_, n, _) => h.(l := h.l[n := v])
    case RightOf(_, n, _) => h.(r := h.r[n := v])
  }

  /** The heap after linking the root of `u` to the context `x`, both ways. */
  function Linked(g: Links, c: byte, x: Ctx, u: Tree): Links
    requires g.Shape() && 0 <= Root(u) <= N && (!x.Top? ==> 0 <= x.id < N)
  {
    SetChild(g.(p := g.p[Root(u) := CtxParent(x, c)]), x, c, Root(u))
  }

  /** Replacing the subtree at a hole: the new subtree is encoded in `g`, which agrees with
      `h` on the context; then its root is linked to the context both ways. */
  lemma {:induction false} Splice(h: Links, g: Links, c: byte, x: Ctx, t: Tree, u: Tree)
    requires h.Shape() && g.Shape() && RepSplit(h, c, x, t) && UniqSplit(x, u)
    requires Rep(g, u) && g.r[Sentinel(c)] == h.r[Sentinel(c)]
    requires forall n <- CtxNodes(x) :: Same(h, g, n)
    ensures 0 <= Root(u) <= N
    ensures !x.Top? ==> 0 <= x.id < N
    ensures RepTree(Linked(g, c, x, u), c, Plug(x, u))
  {
    var k := Linked(g, c, x, u);
    assert !x.Top? ==> x.id in CtxNodes(x) && Same(h, g, x.id);
    assert u.Node? ==> u.id in Nodes(u);
    RepFrame(g, k, u);
    RepCtxFrame(h, k, x, c, Root(t), Root(u));
    RepPlug(k, c, x, u);
  }

  /** The test the code uses to find which link points at the root of `t`. */
  lemma {:induction false} WhichChild(h: Links, c: byte, x: Ctx, t: Tree)
    requires h.Shape() && RepSplit(h, c, x, t) && t.Node? && UniqSplit(x, t)
    ensures h.r[h.p[t.id]] == t.id <==> !x.LeftOf?
  {
    if x.LeftOf? && x.right.Node? {
      assert t.id in Nodes(t) && x.right.id in Nodes(x.right) && x.right.id in CtxNodes(x);
    }
  }

  // ----- All 256 trees ------------------------------------------------------------

  predicate IsText(text: seq<byte>) { |text| == N + F - 1 }

  function Key(text: seq<byte>, n: int): (k: seq<byte>)
    requires IsText(text) && 0 <= n < N
    ensures |k| == F
  {
    text[n..n + F]
  }

  /** Every node starts with byte `c`, and the keys strictly increase along `s`. */
  ghost predicate Ordered(text: seq<byte>, c: byte, s: seq<int>)
    requires IsText(text)
  {
    && (forall i :: 0 <= i < |s| ==> 0 <= s[i] < N && text[s[i]] == c)
    && (forall i, j :: 0 <= i < j < |s| ==> Less(Key(text, s[i]), Key(text, s[j])))
  }

  ghost predicate WellFormed(h: Links, text: seq<byte>, trees: seq<Tree>) {
    && h.Shape() && IsText(text) && |trees| == 256
    && (forall c: byte :: RepTree(h, c, trees[c]))
    && (forall c: byte :: Ordered(text, c, InOrder(trees[c])))
    && (forall n {:trigger Member(text, trees, n)} :: 0 <= n < N ==> (h.p[n] != NIL <==> Member(text, trees, n)))
  }

  /** Node `n` is in the tree of its first byte. */
  predicate Member(text: seq<byte>, trees: seq<Tree>, n: int)
    requires IsText(text) && |trees| == 256 && 0 <= n < N
  {
    n in Nodes(trees[text[n]])
  }

  lemma {:induction false} OrderedUniq(text: seq<byte>, c: byte, t: Tree)
    requires IsText(text) && Ordered(text, c, InOrder(t))
    ensures Uniq(t) && forall n <- Nodes(t) :: 0 <= n < N && text[n] == c
  {
    var s := InOrder(t);
    forall i, j | 0 <= i < j < |s| ensures s[i] != s[j] {
      assert Less(Key(text, s[i]), Key(text, s[j]));
    }
    DistinctUniq(t);
    InOrderNodes(t);
  }

  /** Changing one tree, its nodes' links and nothing else keeps all the trees well formed. */
  lemma {:induction false} OneTree(h: Links, k: Links, text: seq<byte>, trees: seq<Tree>, c: byte, u: Tree)
    requires WellFormed(h, text, trees) && k.Shape()
    requires RepTree(k, c, u) && Ordered(text, c, InOrder(u))
    requires forall n :: 0 <= n < N && text[n] != c ==> Same(h, k, n)
    requires forall b: byte :: b != c ==> h.r[Sentinel(b)] == k.r[Sentinel(b)]
    requires forall n :: 0 <= n < N && text[n] == c && n !in Nodes(u) ==> k.p[n] == NIL
    ensures WellFormed(k, text, trees[c := u])
  {
    var us := trees[c := u];
    forall b: byte ensures RepTree(k, b, us[b]) {
      if b != c {
        OrderedUniq(text, b, trees[b]);
        FrameSide(h, k, trees[b], Sentinel(b));
      }
    }
    forall n | 0 <= n < N ensures k.p[n] != NIL <==> Member(text, us, n) {
      if text[n] != c {
        assert Same(h, k, n) && Member(text, us, n) == Member(text, trees, n);
      } else if n in Nodes(u) {
        RepBounds(k, u, n);
      }
    }
  }

  lemma {:induction false} LinkedSame(h: Links, g: Links, text: seq<byte>, c: byte, x: Ctx, u: Tree)
    requires h.Shape() && g.Shape() && IsText(text) && 0 <= Root(u) <= N && (!x.Top? ==> 0 <= x.id < N)
    requires !x.Top? ==> text[x.id] == c && x.id in CtxNodes(x)
    requires u.Node? ==> text[u.id] == c && u.id in Nodes(u)
    requires forall n :: 0 <= n < N && (text[n] != c || n in CtxNodes(x)) ==> Same(h, g, n)
    requires forall b: byte :: g.r[Sentinel(b)] == h.r[Sentinel(b)]
    requires forall n :: 0 <= n < N && text[n] == c && n !in CtxNodes(x) && n !in Nodes(u) ==> g.p[n] == NIL
    ensures var k := Linked(g, c, x, u);
            && k.Shape()
            && (forall n :: 0 <= n < N && text[n] != c ==> Same(h, k, n))
            && (forall n :: 0 <= n < N && text[n] == c && n !in CtxNodes(x) && n !in Nodes(u) ==> k.p[n] == NIL)
            && (forall b: byte :: b != c ==> h.r[Sentinel(b)] == k.r[Sentinel(b)])
  {
    forall n | 0 <= n < N && text[n] != c ensures Same(h, Linked(g, c, x, u), n) {
      assert Same(h, g, n);
    }
  }

  /** Replacing one subtree of one tree keeps all the trees well formed, when the links of nothing
      but the old and new nodes of the subtree (and the junk cell) changed. */
  lemma {:induction false} Graft(h: Links, g: Links, text: seq<byte>, trees: seq<Tree>, c: byte, x: Ctx, t: Tree,
                                 u: Tree, D: set<int>)
    requires WellFormed(h, text, trees) && g.Shape() && Plug(x, t) == trees[c]
    requires UniqSplit(x, u) && Rep(g, u) && Ordered(text, c, InOrder(Plug(x, u)))
    requires forall n :: 0 <= n < N && n !in D ==> Same(h, g, n)
    requires forall n <- D :: n == NIL || n in Nodes(u) || (n in Nodes(t) && 0 <= n < N && g.p[n] == NIL)
    requires forall n <- Nodes(t) :: n in Nodes(u) || n in D
    requires forall b: byte :: g.r[Sentinel(b)] == h.r[Sentinel(b)]
    ensures 0 <= Root(u) <= N && (!x.Top? ==> 0 <= x.id < N)
    ensures WellFormed(Linked(g, c, x, u), text, trees[c := Plug(x, u)])
  {
    UniqPlug(x, u);
    UniqPlug(x, t);
    OrderedUniq(text, c, Plug(x, u));
    OrderedUniq(text, c, trees[c]);
    RepPlug(h, c, x, t);
    forall n | 0 <= n < N && (text[n] != c || n in CtxNodes(x)) ensures Same(h, g, n) {
      assert n !in Nodes(u) && n !in Nodes(t);
    }
    forall n | 0 <= n < N && text[n] == c && n !in CtxNodes(x) && n !in Nodes(u) ensures g.p[n] == NIL {
      if n !in D { assert !Member(text, trees, n) && Same(h, g, n); }
    }
    Splice(h, g, c, x, t, u);
    LinkedSame(h, g, text, c, x, u);
    OneTree(h, Linked(g, c, x, u), text, trees, c, Plug(x, u));
  }

  // ----- Insertion ------------------------------------------------------------------

  /** The key of every node in `s` is below that of `r` and shares at most `len` bytes with it. */
  ghost predicate Below(text: seq<byte>, s: seq<int>, r: int, len: nat)
    requires IsText(text) && 0 <= r < N
  {
    forall n <- s :: 0 <= n < N && Less(Key(text, n), Key(text, r)) && Lcp(Key(text, r), Key(text, n)) <= len
  }

  ghost predicate Above(text: seq<byte>, s: seq<int>, r: int, len: nat)
    requires IsText(text) && 0 <= r < N
  {
    forall n <- s :: 0 <= n < N && Less(Key(text, r), Key(text, n)) && Lcp(Key(text, r), Key(text, n)) <= len
  }

  /** The search for the place of `r` has reached the hole of `x`: what lies on either side of the
      hole is on the right side of r's key and matches it in at most `len` bytes. */
  ghost predicate Descent(text: seq<byte>, x: Ctx, r: int, len: nat)
    requires IsText(text) && 0 <= r < N
  {
    Below(text, Before(x), r, len) && Above(text, After(x), r, len)
  }

  /** Comparing with the last node of a run settles the whole run below it. */
  lemma {:induction false} BelowRun(text: seq<byte>, c: byte, a: seq<int>, m: int, r: int, len: nat)
    requires IsText(text) && 0 <= r < N && Ordered(text, c, a + [m]) && 0 <= m < N
    requires Less(Key(text, m), Key(text, r)) && Lcp(Key(text, r), Key(text, m)) <= len
    ensures Below(text, a + [m], r, len)
  {
    var s := a + [m];
    forall i | 0 <= i < |s|
      ensures Less(Key(text, s[i]), Key(text, r)) && Lcp(Key(text, r), Key(text, s[i])) <= len
    {
      if i < |a| {
        assert Less(Key(text, s[i]), Key(text, s[|a|]));
        Between(Key(text, s[i]), Key(text, m), Key(text, r));
      }
    }
  }

  lemma {:induction false} AboveRun(text: seq<byte>, c: byte, m: int, b: seq<int>, r: int, len: nat)
    requires IsText(text) && 0 <= r < N && Ordered(text, c, [m] + b) && 0 <= m < N
    requires Less(Key(text, r), Key(text, m)) && Lcp(Key(text, r), Key(text, m)) <= len
    ensures Above(text, [m] + b, r, len)
  {
    var s := [m] + b;
    forall i | 0 <= i < |s|
      ensures Less(Key(text, r), Key(text, s[i])) && Lcp(Key(text, r), Key(text, s[i])) <= len
    {
      if i > 0 {
        assert Less(Key(text, s[0]), Key(text, s[i]));
        Between(Key(text, r), Key(text, m), Key(text, s[i]));
      }
    }
  }

  lemma {:induction false} OrderedPart(text: seq<byte>, c: byte, a: seq<int>, b: seq<int>, d: seq<int>)
    requires IsText(text) && Ordered(text, c, a + b + d)
    ensures Ordered(text, c, b) && Ordered(text, c, a + d)
  {
    var s := a + b + d;
    assert forall i :: 0 <= i < |b| ==> b[i] == s[|a| + i];
    assert forall i :: 0 <= i < |a + d| ==> (a + d)[i] == s[if i < |a| then i else |b| + i];
  }

  /** Going right at node `m` of an in-order sequence: what lies left of it holds no longer match. */
  lemma {:induction false} GoRight(text: seq<byte>, c: byte, a: seq<int>, l: seq<int>, m: int, b: seq<int>, r: int,
                                   len: nat)
    requires IsText(text) && 0 <= r < N && 0 <= m < N
    requires Ordered(text, c, a + (l + [m]) + b) && Below(text, a, r, len)
    requires Less(Key(text, m), Key(text, r)) && Lcp(Key(text, r), Key(text, m)) <= len
    ensures Below(text, a + l + [m], r, len)
  {
    OrderedPart(text, c, a, l + [m], b);
    BelowRun(text, c, l, m, r, len);
    assert a + l + [m] == a + (l + [m]);
  }

  lemma {:induction false} GoLeft(text: seq<byte>, c: byte, a: seq<int>, m: int, l: seq<int>, b: seq<int>, r: int,
                                  len: nat)
    requires IsText(text) && 0 <= r < N && 0 <= m < N
    requires Ordered(text, c, a + ([m] + l) + b) && Above(text, b, r, len)
    requires Less(Key(text, r), Key(text, m)) && Lcp(Key(text, r), Key(text, m)) <= len
    ensures Above(text, [m] + l + b, r, len)
  {
    OrderedPart(text, c, a, [m] + l, b);
    AboveRun(text, c, m, l, r, len);
  }

  lemma {:induction false} Regroup(a: seq<int>, l: seq<int>, m: int, d: seq<int>, b: seq<int>)
    ensures a + (l + [m] + d) + b == a + (l + [m]) + (d + b) == (a + l) + ([m] + d) + b == (a + l) + [m] + (d + b)
  {
  }

  /** Going right or left at a node: the subtree not visited holds no longer match. */
  lemma {:induction false} Descend(text: seq<byte>, c: byte, x: Ctx, t: Tree, r: int, len: nat)
    requires IsText(text) && 0 <= r < N && t.Node? && 0 <= t.id < N
    requires Ordered(text, c, InOrder(Plug(x, t))) && Descent(text, x, r, len)
    requires Lcp(Key(text, r), Key(text, t.id)) <= len
    ensures Less(Key(text, t.id), Key(text, r)) ==> Descent(text, RightOf(t.left, t.id, x), r, len)
    ensures Less(Key(text, r), Key(text, t.id)) ==> Descent(text, LeftOf(x, t.id, t.right), r, len)
  {
    InOrderPlug(x, t);
    var a, l, m, d, b := Before(x), InOrder(t.left), t.id, InOrder(t.right), After(x);
    Regroup(a, l, m, d, b);
    if Less(Key(text, t.id), Key(text, r)) {
      GoRight(text, c, a, l, m, d + b, r, len);
    }
    if Less(Key(text, r), Key(text, t.id)) {
      GoLeft(text, c, a + l, m, d, b, r, len);
    }
  }

  /** Clearing the child links of a node outside the trees. */
  lemma {:induction false} Untouched(h: Links, text: seq<byte>, trees: seq<Tree>, r: int)
    requires WellFormed(h, text, trees) && 0 <= r < N && h.p[r] == NIL
    ensures WellFormed(Cleared(h, r), text, trees)
  {
    var c := text[r];
    OrderedUniq(text, c, trees[c]);
    assert !Member(text, trees, r);
    assert forall n :: 0 <= n < N && text[n] == c && n !in Nodes(trees[c]) ==> !Member(text, trees, n);
    var k := Cleared(h, r);
    FrameSide(h, k, trees[c], Sentinel(c));
    OneTree(h, k, text, trees, c, trees[c]);
    assert trees[c := trees[c]] == trees;
  }

  lemma {:induction false} InsertOrdered(text: seq<byte>, c: byte, a: seq<int>, r: int, b: seq<int>, len: nat)
    requires IsText(text) && Ordered(text, c, a + [] + b) && 0 <= r < N && text[r] == c
    requires Below(text, a, r, len) && Above(text, b, r, len)
    ensures Ordered(text, c, a + [r] + b)
  {
    var s, s' := a + [] + b, a + [r] + b;
    assert forall i :: 0 <= i < |s'| && i != |a| ==> s'[i] == s[if i < |a| then i else i - 1];
  }

  lemma {:induction false} LeafOrdered(text: seq<byte>, c: byte, x: Ctx, leaf: Tree, len: nat)
    requires IsText(text) && leaf.Node? && leaf.left.Leaf? && leaf.right.Leaf? && 0 <= leaf.id < N && text[leaf.id] == c
    requires Ordered(text, c, InOrder(Plug(x, Leaf))) && Descent(text, x, leaf.id, len)
    ensures Ordered(text, c, InOrder(Plug(x, leaf)))
  {
    InOrderPlug(x, Leaf);
    InOrderPlug(x, leaf);
    assert InOrder(leaf) == [leaf.id];
    InsertOrdered(text, c, Before(x), leaf.id, After(x), len);
  }

  /** Hanging a leaf where the search ended. */
  lemma {:induction false} LinkLeaf(h: Links, text: seq<byte>, trees: seq<Tree>, x: Ctx, leaf: Tree, len: nat)
    requires leaf.Node? && leaf.left.Leaf? && leaf.right.Leaf? && 0 <= leaf.id < N
    requires WellFormed(h, text, trees) && h.p[leaf.id] == NIL && h.l[leaf.id] == h.r[leaf.id] == NIL
    requires Plug(x, Leaf) == trees[text[leaf.id]] && Descent(text, x, leaf.id, len)
    ensures !x.Top? ==> 0 <= x.id < N
    ensures var c := text[leaf.id];
            && WellFormed(Linked(h, c, x, leaf), text, trees[c := Plug(x, leaf)])
            && Nodes(Plug(x, leaf)) == Nodes(trees[c]) + {leaf.id}
  {
    var c := text[leaf.id];
    LeafOrdered(text, c, x, leaf, len);
    OrderedUniq(text, c, Plug(x, leaf));
    UniqPlug(x, leaf);
    UniqPlug(x, Leaf);
    Graft(h, h, text, trees, c, x, Leaf, leaf, {});
  }

  // ----- Exchange and removal of nodes --------------------------------------------------

  /** What Graft needs to know about a tree and one subtree of it. */
  lemma {:induction false} SplitFacts(h: Links, text: seq<byte>, trees: seq<Tree>, c: byte, x: Ctx, t: Tree)
    requires WellFormed(h, text, trees) && Plug(x, t) == trees[c]
    ensures RepSplit(h, c, x, t) && UniqSplit(x, t) && Nodes(trees[c]) == CtxNodes(x) + Nodes(t)
    ensures InOrder(trees[c]) == Before(x) + InOrder(t) + After(x)
    ensures forall n <- CtxNodes(x) + Nodes(t) :: 0 <= n < N && text[n] == c && h.p[n] != NIL
    ensures forall n :: 0 <= n < N && text[n] == c && n !in CtxNodes(x) && n !in Nodes(t) ==> h.p[n] == NIL
    ensures Ordered(text, c, InOrder(trees[c]))
  {
    OrderedUniq(text, c, trees[c]);
    UniqPlug(x, t);
    RepPlug(h, c, x, t);
    InOrderPlug(x, t);
    assert forall n :: 0 <= n < N && text[n] == c ==> (n in Nodes(trees[c]) <==> Member(text, trees, n));
  }

  /** The node `q`, from outside the trees, takes over the children of `p`. */
  function Adopted(h: Links, p: int, q: int): Links
    requires h.Shape() && 0 <= p < N && 0 <= q < N && 0 <= h.l[p] <= N && 0 <= h.r[p] <= N
  {
    Links(h.l[q := h.l[p]], h.r[q := h.r[p]], h.p[h.l[p] := q][h.r[p] := q][p := NIL])
  }

  lemma {:induction false} AdoptedRep(h: Links, t: Tree, u: Tree)
    requires h.Shape() && t.Node? && u.Node? && t.left == u.left && t.right == u.right
    requires Rep(h, t) && Uniq(t) && 0 <= u.id < N && u.id !in Nodes(t)
    ensures Rep(Adopted(h, t.id, u.id), u)
  {
    var g, l, r := Adopted(h, t.id, u.id), t.left, t.right;
    assert l.Node? ==> l.id in Nodes(l);
    assert r.Node? ==> r.id in Nodes(r);
    RepFrame(h, g, l);
    RepFrame(h, g, r);
  }

  lemma {:induction false} SetDrop(a: set<int>, l: set<int>, p: int, r: set<int>)
    requires p !in a && p !in l && p !in r
    ensures a + (l + r) == a + (l + {p} + r) - {p}
  {
  }

  /** Trees with and without one node, as sets of nodes and as sequences. */
  lemma {:induction false} DropNodes(x: Ctx, t: Tree, u: Tree)
    requires t.Node? && UniqSplit(x, t) && Uniq(u)
    requires Nodes(u) == Nodes(t.left) + Nodes(t.right) && InOrder(u) == InOrder(t.left) + InOrder(t.right)
    ensures UniqSplit(x, u) && Nodes(Plug(x, u)) == Nodes(Plug(x, t)) - {t.id}
    ensures t.id in Nodes(t) && t.id !in Nodes(u) && t.id !in CtxNodes(x)
    ensures Nodes(u) <= Nodes(t) <= Nodes(u) + {t.id}
  {
    UniqPlug(x, t);
    UniqPlug(x, u);
    assert t.id in Nodes(t);
    SetDrop(CtxNodes(x), Nodes(t.left), t.id, Nodes(t.right));
  }

  lemma {:induction false} OrderedDrop(text: seq<byte>, c: byte, x: Ctx, t: Tree, u: Tree)
    requires IsText(text) && t.Node? && Ordered(text, c, InOrder(Plug(x, t)))
    requires InOrder(u) == InOrder(t.left) + InOrder(t.right)
    ensures Ordered(text, c, InOrder(Plug(x, u)))
  {
    InOrderPlug(x, t);
    InOrderPlug(x, u);
    DropAt(text, c, Before(x), InOrder(t.left), t.id, InOrder(t.right), After(x));
  }

  lemma {:induction false} DropAt(text: seq<byte>, c: byte, a: seq<int>, l: seq<int>, p: int, r: seq<int>, b: seq<int>)
    requires IsText(text) && Ordered(text, c, a + (l + [p] + r) + b)
    ensures Ordered(text, c, a + (l + r) + b)
  {
    Regroup(a, l, p, r, b);
    OrderedPart(text, c, a + l, [p], r + b);
    assert a + (l + r) + b == (a + l) + (r + b);
  }

  lemma {:induction false} OneChild(t: Tree, u: Tree)
    requires t.Node? && ((u == t.left && t.right.Leaf?) || (u == t.right && t.left.Leaf?))
    ensures Nodes(u) == Nodes(t.left) + Nodes(t.right) && InOrder(u) == InOrder(t.left) + InOrder(t.right)
  {
  }

  /** Removing a node that lacks a child: the other child takes its place. */
  lemma {:induction false} Unlink(h: Links, text: seq<byte>, trees: seq<Tree>, c: byte, x: Ctx, t: Tree, u: Tree)
    requires WellFormed(h, text, trees) && Plug(x, t) == trees[c] && t.Node?
    requires (u == t.left && t.right.Leaf?) || (u == t.right && t.left.Leaf?)
    ensures 0 <= t.id < N && 0 <= Root(u) <= N && (!x.Top? ==> 0 <= x.id < N)
    ensures WellFormed(Linked(h.(p := h.p[t.id := NIL]), c, x, u), text, trees[c := Plug(x, u)])
    ensures Nodes(Plug(x, u)) == Nodes(trees[c]) - {t.id}
  {
    SplitFacts(h, text, trees, c, x, t);
    OneChild(t, u);
    DropNodes(x, t, u);
    OrderedDrop(text, c, x, t, u);
    var g := h.(p := h.p[t.id := NIL]);
    RepFrame(h, g, u);
    Graft(h, g, text, trees, c, x, t, u, {t.id});
  }

  /** `u` is `t` without its root, whose left child has no right child. */
  predicate Promoted(t: Tree, u: Tree) {
    t.Node? && t.left.Node? && t.left.right.Leaf? && u == Node(t.left.left, t.left.id, t.right)
  }

  function PromotedLinks(h: Links, p: int, q: int): Links
    requires h.Shape() && 0 <= p < N && 0 <= q < N && 0 <= h.r[p] <= N
  {
    Links(h.l, h.r[q := h.r[p]], h.p[h.r[p] := q][p := NIL])
  }

  lemma {:induction false} PromoteRep(h: Links, t: Tree, u: Tree)
    requires h.Shape() && Rep(h, t) && Uniq(t) && Promoted(t, u)
    ensures Rep(h, t.left) && Rep(PromotedLinks(h, t.id, u.id), u)
  {
    var g, l, r := PromotedLinks(h, t.id, u.id), u.left, u.right;
    assert u.id in Nodes(t.left) && Uniq(t.left);
    assert r.Node? ==> r.id in Nodes(r);
    assert l.Node? ==> l.id in Nodes(l);
    assert forall n <- Nodes(l) :: n in Nodes(t.left);
    RepFrame(h, g, l);
    RepFrame(h, g, r);
  }

  lemma {:induction false} PromoteShape(t: Tree, u: Tree)
    requires Uniq(t) && Promoted(t, u)
    ensures Uniq(u) && InOrder(u) == InOrder(t.left) + InOrder(t.right)
    ensures Nodes(u) == Nodes(t.left) + Nodes(t.right) && u.id in Nodes(u)
    ensures t.right.Node? ==> t.right.id in Nodes(u)
  {
    assert Uniq(t.left) && u.id in Nodes(t.left) && Nodes(u.left) <= Nodes(t.left);
    if t.right.Node? { assert t.right.id in Nodes(t.right); }
  }

  /** Removing a node whose left child has no right child: the left child takes over its right child. */
  lemma {:induction false} Promote(h: Links, text: seq<byte>, trees: seq<Tree>, c: byte, x: Ctx, t: Tree, u: Tree)
    requires WellFormed(h, text, trees) && Plug(x, t) == trees[c] && Promoted(t, u)
    ensures 0 <= t.id < N && 0 <= u.id < N && 0 <= h.r[t.id] <= N && (!x.Top? ==> 0 <= x.id < N)
    ensures WellFormed(Linked(PromotedLinks(h, t.id, u.id), c, x, u), text, trees[c := Plug(x, u)])
    ensures Nodes(Plug(x, u)) == Nodes(trees[c]) - {t.id}
  {
    SplitFacts(h, text, trees, c, x, t);
    PromoteShape(t, u);
    DropNodes(x, t, u);
    OrderedDrop(text, c, x, t, u);
    PromoteRep(h, t, u);
    Graft(h, PromotedLinks(h, t.id, u.id), text, trees, c, x, t, u, {t.id, u.id, Root(t.right)});
  }

  lemma {:induction false} SwapNodes(x: Ctx, t: Tree, u: Tree)
    requires t.Node? && u.Node? && t.left == u.left && t.right == u.right && t.id != u.id
    requires UniqSplit(x, t) && UniqSplit(x, u)
    ensures Nodes(Plug(x, u)) == Nodes(Plug(x, t)) - {t.id} + {u.id}
    ensures t.id in Nodes(t) && u.id in Nodes(u) && u.id !in Nodes(t)
    ensures forall n <- Nodes(t) :: n in Nodes(u) || n == t.id
    ensures u.left.Node? ==> u.left.id in Nodes(u)
    ensures u.right.Node? ==> u.right.id in Nodes(u)
  {
    UniqPlug(x, t);
    UniqPlug(x, u);
    assert t.id in Nodes(t) && u.id in Nodes(u);
    if u.left.Node? { assert u.left.id in Nodes(u.left); }
    if u.right.Node? { assert u.right.id in Nodes(u.right); }
    SetSwap(CtxNodes(x), Nodes(t.left), t.id, u.id, Nodes(t.right));
  }

  lemma {:induction false} SetSwap(a: set<int>, l: set<int>, p: int, q: int, r: set<int>)
    requires p !in a && p !in l && p !in r && p != q
    ensures a + (l + {q} + r) == a + (l + {p} + r) - {p} + {q}
  {
  }

  /** A node from outside the trees takes the place of another, with its children. */
  lemma {:induction false} TakeOver(h: Links, text: seq<byte>, trees: seq<Tree>, c: byte, x: Ctx, t: Tree, u: Tree)
    requires WellFormed(h, text, trees) && t.Node? && u.Node? && Plug(x, t) == trees[c]
    requires 0 <= u.id < N && h.p[u.id] == NIL && text[u.id] == c && t.left == u.left && t.right == u.right
    requires Ordered(text, c, InOrder(Plug(x, u)))
    ensures 0 <= t.id < N && 0 <= h.l[t.id] <= N && 0 <= h.r[t.id] <= N && (!x.Top? ==> 0 <= x.id < N)
    ensures WellFormed(Linked(Adopted(h, t.id, u.id), c, x, u), text, trees[c := Plug(x, u)])
    ensures Nodes(Plug(x, u)) == Nodes(trees[c]) - {t.id} + {u.id}
  {
    SplitFacts(h, text, trees, c, x, t);
    assert !Member(text, trees, u.id);
    OrderedUniq(text, c, Plug(x, u));
    UniqPlug(x, u);
    assert t.id in Nodes(t);
    SwapNodes(x, t, u);
    AdoptedRep(h, t, u);
    Graft(h, Adopted(h, t.id, u.id), text, trees, c, x, t, u, {t.id, u.id, Root(u.left), Root(u.right)});
  }

  // ----- What an insertion leaves behind ------------------------------------------------

  /** The nodes in the trees afterwards: `r`, and those before whose string differs from r's. */
  ghost predicate Inserted(h: Links, k: Links, text: seq<byte>, r: int)
    requires h.Shape() && k.Shape() && IsText(text) && 0 <= r < N
  {
    forall n :: 0 <= n < N ==> (k.p[n] != NIL <==> n == r || (h.p[n] != NIL && Key(text, n) != Key(text, r)))
  }

  /** No node matches the string of `r` in more than `len` bytes. */
  ghost predicate NoLonger(h: Links, text: seq<byte>, r: int, len: nat)
    requires h.Shape() && IsText(text) && 0 <= r < N
  {
    forall n :: 0 <= n < N && h.p[n] != NIL ==> Lcp(Key(text, r), Key(text, n)) <= len
  }

  /** Node `m` matches the string of `r` in exactly `len` bytes. */
  predicate Matches(h: Links, text: seq<byte>, r: int, m: int, len: nat)
    requires h.Shape() && IsText(text) && 0 <= r < N
  {
    0 <= m < N && h.p[m] != NIL && Lcp(Key(text, r), Key(text, m)) == len
  }

  /** Where a descent stands: the link to the subtree, and its root. */
  lemma {:induction false} AtHole(h: Links, text: seq<byte>, trees: seq<Tree>, c: byte, x: Ctx, t: Tree)
    requires WellFormed(h, text, trees) && Plug(x, t) == trees[c]
    ensures match x
            case Top => h.r[Sentinel(c)] == Root(t)
            case LeftOf(_, n, _) => 0 <= n < N && h.l[n] == Root(t)
            case RightOf(_, n, _) => 0 <= n < N && h.r[n] == Root(t)
    ensures t.Node? ==> 0 <= t.id < N && text[t.id] == c && h.p[t.id] != NIL
  {
    RepPlug(h, c, x, t);
    UniqPlug(x, t);
    OrderedUniq(text, c, trees[c]);
    if t.Node? { assert t.id in Nodes(t) && Member(text, trees, t.id); }
  }

  lemma {:induction false} OtherByte(text: seq<byte>, r: int, n: int)
    requires IsText(text) && 0 <= r < N && 0 <= n < N && text[n] != text[r]
    ensures Key(text, n) != Key(text, r) && Lcp(Key(text, r), Key(text, n)) == 0
  {
    assert Key(text, n)[0] != Key(text, r)[0];
  }

  lemma {:induction false} LessDiffer(a: seq<byte>, b: seq<byte>)
    requires |a| == |b| && (Less(a, b) || Less(b, a))
    ensures a != b
  {
  }

  lemma {:induction false} LeafResult(h: Links, k: Links, text: seq<byte>, trees: seq<Tree>, x: Ctx, u: Tree, r: int,
                                      len: nat)
    requires WellFormed(h, text, trees) && 0 <= r < N && Plug(x, Leaf) == trees[text[r]] && Descent(text, x, r, len)
    requires WellFormed(k, text, trees[text[r] := u]) && Nodes(u) == Nodes(trees[text[r]]) + {r}
    ensures Inserted(h, k, text, r) && NoLonger(h, text, r, len)
  {
    var c, us := text[r], trees[text[r] := u];
    InOrderPlug(x, Leaf);
    InOrderNodes(trees[c]);
    forall n | 0 <= n < N
      ensures k.p[n] != NIL <==> n == r || (h.p[n] != NIL && Key(text, n) != Key(text, r))
      ensures h.p[n] != NIL ==> Lcp(Key(text, r), Key(text, n)) <= len
    {
      assert h.p[n] != NIL <==> Member(text, trees, n);
      assert k.p[n] != NIL <==> Member(text, us, n);
      if text[n] != c {
        OtherByte(text, r, n);
      } else if n in Nodes(trees[c]) {
        assert n in Before(x) || n in After(x);
        LessDiffer(Key(text, n), Key(text, r));
      }
    }
  }

  /** Strings of different nodes of a tree differ. */
  lemma {:induction false} OneKey(text: seq<byte>, c: byte, t: Tree, m: int, n: int)
    requires IsText(text) && Ordered(text, c, InOrder(t)) && m in Nodes(t) && n in Nodes(t) && m != n
    ensures 0 <= m < N && 0 <= n < N && Key(text, m) != Key(text, n)
  {
    InOrderNodes(t);
    var s := InOrder(t);
    var i, j :| 0 <= i < |s| && 0 <= j < |s| && s[i] == m && s[j] == n;
    LessDiffer(Key(text, m), Key(text, n));
  }

  lemma {:induction false} SwapResult(h: Links, k: Links, text: seq<byte>, trees: seq<Tree>, u: Tree, p: int, r: int)
    requires WellFormed(h, text, trees) && 0 <= r < N && 0 <= p < N && p in Nodes(trees[text[r]])
    requires Key(text, p) == Key(text, r)
    requires WellFormed(k, text, trees[text[r] := u]) && Nodes(u) == Nodes(trees[text[r]]) - {p} + {r}
    ensures Inserted(h, k, text, r)
  {
    var c, us := text[r], trees[text[r] := u];
    forall n | 0 <= n < N
      ensures k.p[n] != NIL <==> n == r || (h.p[n] != NIL && Key(text, n) != Key(text, r))
    {
      assert h.p[n] != NIL <==> Member(text, trees, n);
      assert k.p[n] != NIL <==> Member(text, us, n);
      if text[n] != c {
        OtherByte(text, r, n);
      } else if n in Nodes(trees[c]) && n != p {
        OneKey(text, c, trees[c], n, p);
      }
    }
  }

  lemma {:induction false} SwapOrdered(text: seq<byte>, c: byte, x: Ctx, t: Tree, u: Tree)
    requires IsText(text) && Ordered(text, c, InOrder(Plug(x, t))) && t.Node? && u.Node?
    requires t.left == u.left && t.right == u.right && 0 <= t.id < N && 0 <= u.id < N && text[u.id] == c
    requires Key(text, t.id) == Key(text, u.id)
    ensures Ordered(text, c, InOrder(Plug(x, u)))
  {
    InOrderPlug(x, t);
    InOrderPlug(x, u);
    var a, l, r, b := Before(x), InOrder(t.left), InOrder(t.right), After(x);
    Regroup(a, l, t.id, r, b);
    Regroup(a, l, u.id, r, b);
    SwapAt(text, c, a + l, t.id, u.id, r + b);
  }

  lemma {:induction false} SwapAt(text: seq<byte>, c: byte, a: seq<int>, p: int, q: int, b: seq<int>)
    requires IsText(text) && Ordered(text, c, a + [p] + b) && 0 <= p < N && 0 <= q < N && text[q] == c
    requires Key(text, p) == Key(text, q)
    ensures Ordered(text, c, a + [q] + b)
  {
    var s, s' := a + [p] + b, a + [q] + b;
    assert forall i :: 0 <= i < |s'| && i != |a| ==> s'[i] == s[i];
    assert s[|a|] == p && s'[|a|] == q;
  }

  function Cleared(h: Links, r: int): Links
    requires h.Shape() && 0 <= r < N
  {
    h.(l := h.l[r := NIL], r := h.r[r := NIL])
  }

  /** An insertion that ends at an empty link. */
  lemma {:induction false} LeafDone(h: Links, text: seq<byte>, trees: seq<Tree>, x: Ctx, leaf: Tree, len: nat)
    requires leaf.Node? && leaf.left.Leaf? && leaf.right.Leaf? && 0 <= leaf.id < N
    requires WellFormed(h, text, trees) && h.p[leaf.id] == NIL
    requires Plug(x, Leaf) == trees[text[leaf.id]] && Descent(text, x, leaf.id, len)
    ensures !x.Top? ==> 0 <= x.id < N
    ensures var c, k := text[leaf.id], Linked(Cleared(h, leaf.id), text[leaf.id], x, leaf);
            && WellFormed(k, text, trees[c := Plug(x, leaf)])
            && Inserted(h, k, text, leaf.id) && NoLonger(h, text, leaf.id, len)
  {
    var r := leaf.id;
    var g := Cleared(h, r);
    Untouched(h, text, trees, r);
    LinkLeaf(g, text, trees, x, leaf, len);
    LeafResult(h, Linked(g, text[r], x, leaf), text, trees, x, Plug(x, leaf), r, len);
  }

  /** An insertion that ends at a node with the same string. */
  lemma {:induction false} SwapDone(h: Links, text: seq<byte>, trees: seq<Tree>, x: Ctx, t: Tree, u: Tree)
    requires t.Node? && u.Node? && t.left == u.left && t.right == u.right && 0 <= u.id < N
    requires WellFormed(h, text, trees) && h.p[u.id] == NIL && Plug(x, t) == trees[text[u.id]]
    requires 0 <= t.id < N && Key(text, t.id) == Key(text, u.id)
    ensures ReplaceBounds(Cleared(h, u.id), t.id, u.id)
    ensures var c, k := text[u.id], Replaced(Cleared(h, u.id), t.id, u.id);
            WellFormed(k, text, trees[c := Plug(x, u)]) && Inserted(h, k, text, u.id)
  {
    var c, g := text[u.id], Cleared(h, u.id);
    Untouched(h, text, trees, u.id);
    SwapOrdered(text, c, x, t, u);
    SplitFacts(g, text, trees, c, x, t);
    assert !Member(text, trees, u.id) && t.id in Nodes(t);
    ReplacedLinks(g, c, x, t, u);
    TakeOver(g, text, trees, c, x, t, u);
    SwapResult(h, Linked(Adopted(g, t.id, u.id), c, x, u), text, trees, Plug(x, u), t.id, u.id);
  }

  /** The links after the tail of insert_node. */
  function Replaced(h: Links, p: int, r: int): Links
    requires h.Shape() && 0 <= p < N && 0 <= r < N && ReplaceBounds(h, p, r)
  {
    var l1, r1, p1 := h.l[r := h.l[p]], h.r[r := h.r[p]], h.p[r := h.p[p]][h.l[p] := r][h.r[p] := r];
    if r1[h.p[p]] == p then Links(l1, r1[h.p[p] := r], p1[p := NIL])
    else Links(l1[h.p[p] := r], r1, p1[p := NIL])
  }

  predicate ReplaceBounds(h: Links, p: int, r: int)
    requires h.Shape() && 0 <= p < N && 0 <= r < N
  {
    && 0 <= h.l[p] <= N && 0 <= h.r[p] <= N && p != r && h.l[p] != p && h.r[p] != p
    && 0 <= h.p[p] < N + 257 && h.p[p] != r && (h.p[p] > N ==> h.r[h.p[p]] == p)
  }

  lemma {:induction false} ReplacedLinks(h: Links, c: byte, x: Ctx, t: Tree, u: Tree)
    requires h.Shape() && t.Node? && u.Node? && 0 <= u.id < N
    requires RepSplit(h, c, x, t) && UniqSplit(x, t) && u.id !in CtxNodes(x) && u.id !in Nodes(t)
    ensures ReplaceBounds(h, t.id, u.id) && (!x.Top? ==> 0 <= x.id < N)
    ensures Replaced(h, t.id, u.id) == Linked(Adopted(h, t.id, u.id), c, x, u)
  {
    WhichChild(h, c, x, t);
    assert t.id in Nodes(t);
    assert t.left.Node? ==> t.left.id in Nodes(t.left);
    assert t.right.Node? ==> t.right.id in Nodes(t.right);
    assert !x.Top? ==> x.id in CtxNodes(x);
    var a, b := Replaced(h, t.id, u.id), Linked(Adopted(h, t.id, u.id), c, x, u);
    assert forall n :: 0 <= n <= N ==> a.p[n] == b.p[n];
  }

  /** The byte comparison of the code decides the order of the two strings. */
  lemma {:induction false} SameStart(text: seq<byte>, r: int, p: int, i: nat)
    requires IsText(text) && 0 <= r < N && 0 <= p < N && i <= F
    requires forall j :: r <= j < r + i ==> text[j] == text[p + (j - r)]
    ensures Key(text, r)[..i] == Key(text, p)[..i]
  {
    assert forall j :: 0 <= j < i ==> Key(text, r)[j] == text[r + j];
  }

  lemma {:induction false} Compared(text: seq<byte>, r: int, p: int, i: nat)
    requires IsText(text) && 0 <= r < N && 0 <= p < N && i <= F && Key(text, r)[..i] == Key(text, p)[..i]
    requires i < F ==> text[r + i] != text[p + i]
    ensures Lcp(Key(text, r), Key(text, p)) == i == Lcp(Key(text, p), Key(text, r))
    ensures i < F && text[r + i] > text[p + i] ==> Less(Key(text, p), Key(text, r))
    ensures i < F && text[r + i] < text[p + i] ==> Less(Key(text, r), Key(text, p))
    ensures i == F ==> Key(text, r) == Key(text, p)
  {
    var a, b := Key(text, r), Key(text, p);
    assert forall j :: 0 <= j < i ==> a[j] == a[..i][j] == b[..i][j] == b[j];
    LcpUnique(a, b, i);
    LcpUnique(b, a, i);
    if i == F { assert a[..i] == a && b[..i] == b; }
  }

  // ----- Deletion ----------------------------------------------------------------------

  /** The last steps of delete_node: `q`, possibly null, takes the place of `p`. */
  function Detached(h: Links, p: int, q: int): Links
    requires h.Shape() && DetachBounds(h, p, q)
  {
    var up := h.p[p];
    if h.r[up] == p then Links(h.l, h.r[up := q], h.p[q := up][p := NIL])
    else Links(h.l[up := q], h.r, h.p[q := up][p := NIL])
  }

  predicate DetachBounds(h: Links, p: int, q: int)
    requires h.Shape()
  {
    0 <= p < N && 0 <= q <= N && p != q && 0 <= h.p[p] < N + 257 && (h.p[p] > N ==> h.r[h.p[p]] == p)
  }

  /** Detaching is linking, once `q` is the root of the subtree to put in the place of `t`. */
  lemma {:induction false} DetachedLinks(h: Links, g: Links, c: byte, x: Ctx, t: Tree, u: Tree)
    requires h.Shape() && g.Shape() && t.Node? && RepSplit(h, c, x, t) && UniqSplit(x, t)
    requires 0 <= Root(u) <= N && Root(u) != t.id && g.p[t.id] == h.p[t.id]
    requires g.r[CtxParent(x, c)] == h.r[CtxParent(x, c)]
    ensures DetachBounds(g, t.id, Root(u))
    ensures !x.Top? ==> 0 <= x.id < N
    ensures Detached(g, t.id, Root(u)) == Linked(g.(p := g.p[t.id := NIL]), c, x, u)
  {
    WhichChild(h, c, x, t);
    var a, b := Detached(g, t.id, Root(u)), Linked(g.(p := g.p[t.id := NIL]), c, x, u);
    assert forall n :: 0 <= n <= N ==> a.p[n] == b.p[n];
  }

  /** Node `p` has left the trees, and no other node entered or left. */
  ghost predicate Deleted(h: Links, k: Links, p: int)
    requires h.Shape() && k.Shape()
  {
    forall n :: 0 <= n < N ==> (k.p[n] != NIL <==> n != p && h.p[n] != NIL)
  }

  lemma {:induction false} DropResult(h: Links, k: Links, text: seq<byte>, trees: seq<Tree>, c: byte, u: Tree, p: int)
    requires WellFormed(h, text, trees) && 0 <= p < N && text[p] == c
    requires WellFormed(k, text, trees[c := u]) && Nodes(u) == Nodes(trees[c]) - {p}
    ensures Deleted(h, k, p)
  {
    forall n | 0 <= n < N ensures k.p[n] != NIL <==> n != p && h.p[n] != NIL {
      assert h.p[n] != NIL <==> Member(text, trees, n);
      assert k.p[n] != NIL <==> Member(text, trees[c := u], n);
    }
  }

  /** Deleting a node that lacks a child. */
  lemma {:induction false} OneChildDone(h: Links, text: seq<byte>, trees: seq<Tree>, c: byte, x: Ctx, t: Tree, u: Tree)
    requires WellFormed(h, text, trees) && Plug(x, t) == trees[c] && t.Node?
    requires (u == t.left && t.right.Leaf?) || (u == t.right && t.left.Leaf?)
    ensures DetachBounds(h, t.id, Root(u))
    ensures var k := Detached(h, t.id, Root(u));
            WellFormed(k, text, trees[c := Plug(x, u)]) && Deleted(h, k, t.id)
  {
    SplitFacts(h, text, trees, c, x, t);
    OneChild(t, u);
    DropNodes(x, t, u);
    assert u.Node? ==> u.id in Nodes(u);
    Unlink(h, text, trees, c, x, t, u);
    DetachedLinks(h, h, c, x, t, u);
    DropResult(h, Detached(h, t.id, Root(u)), text, trees, c, Plug(x, u), t.id);
  }

  /** The links after delete_node has handed the right child of `p` to `q`. */
  function HandOver(h: Links, p: int, q: int): Links
    requires h.Shape() && 0 <= p < N && 0 <= q < N && 0 <= h.r[p] <= N
  {
    Links(h.l, h.r[q := h.r[p]], h.p[h.r[p] := q])
  }

  /** Deleting a node whose left child has no right child. */
  lemma {:induction false} NearDone(h: Links, text: seq<byte>, trees: seq<Tree>, c: byte, x: Ctx, t: Tree, u: Tree)
    requires WellFormed(h, text, trees) && Plug(x, t) == trees[c] && Promoted(t, u)
    ensures 0 <= t.id < N && 0 <= u.id < N && 0 <= h.r[t.id] <= N
    ensures DetachBounds(HandOver(h, t.id, u.id), t.id, u.id)
    ensures var k := Detached(HandOver(h, t.id, u.id), t.id, u.id);
            WellFormed(k, text, trees[c := Plug(x, u)]) && Deleted(h, k, t.id)
  {
    SplitFacts(h, text, trees, c, x, t);
    PromoteShape(t, u);
    DropNodes(x, t, u);
    Promote(h, text, trees, c, x, t, u);
    var g := HandOver(h, t.id, u.id);
    assert t.right.Node? ==> t.right.id in Nodes(t.right) && t.right.id != t.id;
    assert !x.Top? ==> x.id in CtxNodes(x) && x.id != u.id;
    DetachedLinks(h, g, c, x, t, u);
    assert g.(p := g.p[t.id := NIL]) == PromotedLinks(h, t.id, u.id);
    DropResult(h, Detached(g, t.id, u.id), text, trees, c, Plug(x, u), t.id);
  }

  /** The links after delete_node has taken `q` out of the left subtree of `p` and given it the rest. */
  function Lifted(h: Links, p: int, q: int): Links
    requires h.Shape() && LiftBounds(h, p, q)
  {
    Links(h.l[q := h.l[p]], h.r[h.p[q] := h.l[q]], h.p[h.l[q] := h.p[q]][h.l[p] := q])
  }

  predicate LiftBounds(h: Links, p: int, q: int)
    requires h.Shape()
  {
    0 <= p < N && 0 <= q < N && p != q && 0 <= h.l[p] < N && 0 <= h.l[q] <= N && 0 <= h.p[q] < N && h.p[q] != p
  }

  /** The three stages of a deletion, where `q` is the last node of the left subtree. */
  function FarCode(h: Links, p: int, q: int): Links
    requires h.Shape() && FarBounds(h, p, q)
  {
    Detached(HandOver(Lifted(h, p, q), p, q), p, q)
  }

  predicate FarBounds(h: Links, p: int, q: int)
    requires h.Shape()
  {
    && LiftBounds(h, p, q) && 0 <= h.r[p] <= N
    && DetachBounds(HandOver(Lifted(h, p, q), p, q), p, q)
  }

  /** `s` is the last node of the left subtree of `t`, and not the root of that subtree. */
  ghost predicate Far(t: Tree, y: Ctx, s: Tree) {
    t.Node? && s.Node? && s.right.Leaf? && t.left == Plug(y, s) && After(y) == [] && y.RightOf?
  }

  /** The tree without the root of `t`, whose place `s.id` has taken. */
  function FarTree(t: Tree, y: Ctx, s: Tree): Tree
    requires t.Node? && s.Node?
  {
    Node(Plug(y, s.left), s.id, t.right)
  }

  lemma {:induction false} FarShape(x: Ctx, t: Tree, y: Ctx, s: Tree)
    requires Far(t, y, s)
    ensures var z := Over(y, LeftOf(x, t.id, t.right));
            && Plug(z, s) == Plug(x, t) && z.RightOf? && z.id == y.id
            && Plug(z, s.left) == Plug(x, Node(Plug(y, s.left), t.id, t.right))
    ensures InOrder(FarTree(t, y, s)) == InOrder(t.left) + InOrder(t.right)
  {
    PlugOver(y, LeftOf(x, t.id, t.right), s);
    PlugOver(y, LeftOf(x, t.id, t.right), s.left);
    InOrderPlug(y, s);
    InOrderPlug(y, s.left);
  }

  /** Which of the nodes that a far deletion touches are different. */
  lemma {:induction false} FarDistinct(h: Links, c: byte, x: Ctx, t: Tree, y: Ctx, s: Tree)
    requires h.Shape() && Far(t, y, s) && RepSplit(h, c, x, t) && UniqSplit(x, t)
    ensures 0 <= y.id < N && 0 <= s.id < N && 0 <= t.id < N && h.p[s.id] == y.id && h.l[s.id] == Root(s.left)
    ensures h.l[t.id] == Root(t.left) && h.r[t.id] == Root(t.right) && h.p[t.id] == CtxParent(x, c)
    ensures 0 <= Root(t.left) < N && 0 <= Root(s.left) <= N && 0 <= Root(t.right) <= N
    ensures t.id != s.id && t.id != y.id && s.id != y.id && Root(t.left) != s.id && Root(t.left) != t.id
    ensures Root(s.left) !in {t.id, s.id, y.id, Root(t.left)}
    ensures Root(t.right) !in {t.id, s.id, y.id, Root(t.left)}
    ensures !x.Top? ==> 0 <= x.id < N && x.id !in {t.id, s.id, y.id, Root(s.left), Root(t.left), Root(t.right)}
    ensures h.r[CtxParent(x, c)] == t.id <==> !x.LeftOf?
  {
    WhichChild(h, c, x, t);
    FarShape(x, t, y, s);
    var z := Over(y, LeftOf(x, t.id, t.right));
    RepPlug(h, c, x, t);
    RepPlug(h, c, z, s);
    UniqPlug(y, s);
    assert y.id in CtxNodes(y) && s.id in Nodes(s) && t.id in Nodes(t);
    assert s.left.Node? ==> s.left.id in Nodes(s.left) && s.left.id in Nodes(s);
    assert t.left.Node? ==> t.left.id in Nodes(t.left);
    assert t.right.Node? ==> t.right.id in Nodes(t.right);
    assert !x.Top? ==> x.id in CtxNodes(x);
    RootOfPlug(y, s, s.left);
  }

  /** The root of a non-empty context does not depend on what fills it. */
  lemma {:induction false} RootOfPlug(y: Ctx, s: Tree, u: Tree)
    requires !y.Top?
    ensures Root(Plug(y, s)) == Root(Plug(y, u)) && Plug(y, s).Node? && Root(Plug(y, s)) in CtxNodes(y)
  {
    var s', u' := if y.LeftOf? then Node(s, y.id, y.right) else Node(y.left, y.id, s),
                  if y.LeftOf? then Node(u, y.id, y.right) else Node(y.left, y.id, u);
    if !y.up.Top? { RootOfPlug(y.up, s', u'); }
  }

  /** A far deletion is an unlinking of `s.id` followed by its taking over the place of `t.id`. */
  lemma {:induction false} FarLinks(h: Links, c: byte, x: Ctx, t: Tree, y: Ctx, s: Tree)
    requires h.Shape() && Far(t, y, s) && RepSplit(h, c, x, t) && UniqSplit(x, t)
    ensures FarBounds(h, t.id, s.id) && 0 <= Root(s.left) <= N && 0 <= y.id < N && (!x.Top? ==> 0 <= x.id < N)
    ensures var k := Linked(h.(p := h.p[s.id := NIL]), c, Over(y, LeftOf(x, t.id, t.right)), s.left);
            && 0 <= k.l[t.id] <= N && 0 <= k.r[t.id] <= N && k.p[s.id] == NIL
            && FarCode(h, t.id, s.id) == Linked(Adopted(k, t.id, s.id), c, x, FarTree(t, y, s))
  {
    FarDistinct(h, c, x, t, y, s);
    FarShape(x, t, y, s);
    var k := Linked(h.(p := h.p[s.id := NIL]), c, Over(y, LeftOf(x, t.id, t.right)), s.left);
    var a, b := FarCode(h, t.id, s.id), Linked(Adopted(k, t.id, s.id), c, x, FarTree(t, y, s));
    assert forall n :: 0 <= n <= N ==> a.p[n] == b.p[n];
    assert forall n :: 0 <= n <= N ==> a.l[n] == b.l[n];
    assert forall n :: 0 <= n < N + 257 ==> a.r[n] == b.r[n];
  }

  /** Deleting a node by way of the last node of its left subtree. */
  lemma {:induction false} FarDone(h: Links, text: seq<byte>, trees: seq<Tree>, c: byte, x: Ctx, t: Tree, y: Ctx,
                                   s: Tree)
    requires WellFormed(h, text, trees) && Plug(x, t) == trees[c] && Far(t, y, s)
    ensures FarBounds(h, t.id, s.id)
    ensures var k := FarCode(h, t.id, s.id);
            WellFormed(k, text, trees[c := Plug(x, FarTree(t, y, s))]) && Deleted(h, k, t.id)
  {
    SplitFacts(h, text, trees, c, x, t);
    FarShape(x, t, y, s);
    FarLinks(h, c, x, t, y, s);
    var z, u := Over(y, LeftOf(x, t.id, t.right)), FarTree(t, y, s);
    var mid := Node(Plug(y, s.left), t.id, t.right);
    AtHole(h, text, trees, c, z, s);
    Unlink(h, text, trees, c, z, s, s.left);
    var k, trees1 := Linked(h.(p := h.p[s.id := NIL]), c, z, s.left), trees[c := Plug(z, s.left)];
    OrderedDrop(text, c, x, t, u);
    TakeOver(k, text, trees1, c, x, mid, u);
    assert trees1[c := Plug(x, u)] == trees[c := Plug(x, u)];
    FarNodes(x, t, y, s);
    DropResult(h, FarCode(h, t.id, s.id), text, trees, c, Plug(x, u), t.id);
  }

  lemma {:induction false} FarNodes(x: Ctx, t: Tree, y: Ctx, s: Tree)
    requires Far(t, y, s) && UniqSplit(x, t)
    ensures t.id in Nodes(t) && s.id in Nodes(t) && s.id != t.id && Nodes(t) <= Nodes(Plug(x, t))
  {
    UniqPlug(x, t);
    UniqPlug(y, s);
    assert s.id in Nodes(s) && t.id in Nodes(t);
  }

  /** The place in its tree of a node that has a parent. */
  lemma {:induction false} FocusOn(h: Links, text: seq<byte>, trees: seq<Tree>, p: int) returns (x: Ctx, t: Tree)
    requires WellFormed(h, text, trees) && 0 <= p < N && h.p[p] != NIL
    ensures t.Node? && t.id == p && Plug(x, t) == trees[text[p]] && Rep(h, t.left) && Rep(h, t.right)
    ensures h.l[p] == Root(t.left) && h.r[p] == Root(t.right) && -1 < Root(t.left) <= N && -1 < Root(t.right) <= N
    ensures t.left.Node? ==> Root(t.left) < N && h.r[t.left.id] == Root(t.left.right)
    ensures t.right.Node? ==> Root(t.right) < N
    ensures t.left.Node? && t.left.right.Node? ==> Root(t.left.right) < N
  {
    assert Member(text, trees, p);
    InOrderNodes(trees[text[p]]);
    var f := Focus(Top, trees[text[p]], p);
    x, t := f.0, f.1;
    RepPlug(h, text[p], x, t);
  }

  lemma {:induction false} NoNodes(h: Links, text: seq<byte>, trees: seq<Tree>)
    requires h.Shape() && IsText(text) && |trees| == 256 && forall c: byte :: trees[c] == Leaf
    requires forall n :: 0 <= n < N ==> h.p[n] == NIL
    requires forall n :: N + 1 <= n < N + 257 ==> h.r[n] == NIL
    ensures WellFormed(h, text, trees)
  {
  }

  /** struct encode_state: the arrays, and the match the last insertion found. */
  class EncodeState {
    const lchild: array<int>
    const rchild: array<int>
    const parent: array<int>
    const textBuf: array<byte>
    var matchPosition: int
    var matchLength: int
    ghost var trees: seq<Tree>

    ghost predicate Valid()
      reads this, lchild, rchild, parent, textBuf
    {
      && lchild != rchild && lchild != parent && rchild != parent
      && textBuf.Length == N + F - 1
      && WellFormed(Heap(), textBuf[..], trees)
    }

    ghost function Heap(): Links
      reads lchild, rchild, parent
    {
      Links(lchild[..], rchild[..], parent[..])
    }

    /** Node `n` is in one of the trees. */
    predicate InTree(n: int)
      reads parent
    {
      0 <= n < N && n < parent.Length && parent[n] != NIL
    }

    /** init_state: no node is in a tree, and the ring starts as N - F spaces. */
    constructor ()
      ensures Valid()
      ensures forall n :: !InTree(n)
      ensures textBuf.Length == 4113 && forall i :: 0 <= i < 4113 ==> textBuf[i] == if i < 4078 then 32 else 0
      ensures fresh(lchild) && fresh(rchild) && fresh(parent) && fresh(textBuf)
    {
      lchild := new int[N + 1](_ => 0);
      rchild := new int[N + 257](_ => 0);
      parent := new int[N + 1](_ => 0);
      textBuf := new byte[N + F - 1](_ => 0);
      matchPosition, matchLength := 0, 0;
      new;
      for i := 0 to N - F
        invariant forall j :: 0 <= j < N + F - 1 ==> textBuf[j] == if j < i then 32 else 0
      {
        textBuf[i] := 32;
      }
      for i := N + 1 to N + 257
        invariant forall j :: N + 1 <= j < i ==> rchild[j] == NIL
        invariant forall j :: 0 <= j < N + F - 1 ==> textBuf[j] == if j < N - F then 32 else 0
      {
        rchild[i] := NIL;
      }
      for i := 0 to N
        invariant forall j :: N + 1 <= j < N + 257 ==> rchild[j] == NIL
        invariant forall j :: 0 <= j < N + F - 1 ==> textBuf[j] == if j < N - F then 32 else 0
        invariant forall j :: 0 <= j < i ==> parent[j] == NIL
      {
        parent[i] := NIL;
      }
      trees := seq(256, _ => Leaf);
      NoNodes(Heap(), textBuf[..], trees);
    }

    /** The comparison loop of insert_node: the length of the common prefix of two strings that
        start with the same byte, and the difference of the first bytes that differ. */
    method Compare(r: int, p: int) returns (i: nat, cmp: int)
      requires textBuf.Length == N + F - 1 && 0 <= r < N && 0 <= p < N && textBuf[r] == textBuf[p]
      ensures 1 <= i <= F && i == Lcp(Key(textBuf[..], r), Key(textBuf[..], p))
      ensures cmp > 0 <==> Less(Key(textBuf[..], p), Key(textBuf[..], r))
      ensures cmp < 0 <==> Less(Key(textBuf[..], r), Key(textBuf[..], p))
      ensures (cmp == 0 <==> i == F) && (i == F ==> Key(textBuf[..], r) == Key(textBuf[..], p))
    {
      i, cmp := 1, 0;
      while i < F
        invariant 1 <= i <= F && cmp == 0
        invariant forall j :: r <= j < r + i ==> textBuf[j] == textBuf[p + (j - r)]
      {
        cmp := textBuf[r + i] as int - textBuf[p + i] as int;
        if cmp != 0 { break; }
        i := i + 1;
      }
      SameStart(textBuf[..], r, p, i);
      Compared(textBuf[..], r, p, i);
      if i < F { LessDiffer(Key(textBuf[..], r), Key(textBuf[..], p)); }
    }

    /** The tail of insert_node: `r` takes the place of `p` in its tree. */
    method Replace(p: int, r: int)
      requires lchild != rchild && lchild != parent && rchild != parent && Heap().Shape()
      requires 0 <= p < N && 0 <= r < N && ReplaceBounds(Heap(), p, r)
      modifies lchild, rchild, parent
      ensures Heap() == Replaced(old(Heap()), p, r)
    {
      ghost var h := Heap();
      parent[r] := parent[p];
      lchild[r] := lchild[p];
      rchild[r] := rchild[p];
      assert Heap() == Links(h.l[r := h.l[p]], h.r[r := h.r[p]], h.p[r := h.p[p]]);
      parent[lchild[p]] := r;
      parent[rchild[p]] := r;
      assert parent[..] == h.p[r := h.p[p]][h.l[p] := r][h.r[p] := r];
      if rchild[parent[p]] == p {
        rchild[parent[p]] := r;
      } else {
        lchild[parent[p]] := r;
      }
      parent[p] := NIL;
    }

    /** The search loop of insert_node.  It ends below node `p` at an empty link, on the side that
        `cmp` gives, or at a node `p` whose string equals that of `r`. */
    method Search(r: int) returns (p: int, cmp: int, ghost x: Ctx, ghost t: Tree)
      requires Valid() && 0 <= r < N
      modifies this`matchPosition, this`matchLength
      ensures Plug(x, t) == trees[textBuf[r]] && 0 <= matchLength <= F
      ensures matchLength < F ==> t.Leaf? && p == CtxParent(x, textBuf[r]) && (cmp >= 0 <==> !x.LeftOf?)
      ensures matchLength < F ==> Descent(textBuf[..], x, r, matchLength)
      ensures matchLength == F ==> t.Node? && t.id == p && 0 <= p < N && Key(textBuf[..], p) == Key(textBuf[..], r)
      ensures matchLength == 0 ==> matchPosition == old(matchPosition)
      ensures matchLength > 0 ==> Matches(Heap(), textBuf[..], r, matchPosition, matchLength)
    {
      ghost var text, h := textBuf[..], Heap();
      var c := textBuf[r];
      var i;
      cmp := 1;
      p := N + 1 + c;
      matchLength := 0;
      x, t := Top, trees[c];
      while true
        invariant Plug(x, t) == trees[c]
        invariant p == CtxParent(x, c) && (cmp >= 0 <==> !x.LeftOf?)
        invariant 0 <= matchLength < F && Descent(text, x, r, matchLength)
        invariant matchLength == 0 ==> matchPosition == old(matchPosition)
        invariant matchLength > 0 ==> Matches(h, text, r, matchPosition, matchLength)
        decreases t
      {
        AtHole(h, text, trees, c, x, t);
        if cmp >= 0 {
          if rchild[p] != NIL { p := rchild[p]; } else { return; }
        } else {
          if lchild[p] != NIL { p := lchild[p]; } else { return; }
        }
        i, cmp := Compare(r, p);
        if i > matchLength {
          matchPosition := p;
          matchLength := i;
          if matchLength >= F { return; }
        }
        Descend(text, c, x, t, r, matchLength);
        if cmp >= 0 {
          x, t := RightOf(t.left, t.id, x), t.right;
        } else {
          x, t := LeftOf(x, t.id, t.right), t.left;
        }
      }
    }

    /** insert_node.  `r` enters the tree of its first byte; a node with the same string
        leaves; the longest match over all nodes is recorded. */
    method InsertNode(r: int)
      requires Valid() && 0 <= r < N && Heap().p[r] == NIL
      modifies this, lchild, rchild, parent
      ensures Valid()
      ensures Inserted(old(Heap()), Heap(), textBuf[..], r)
      ensures 0 <= matchLength <= 18 && NoLonger(old(Heap()), textBuf[..], r, matchLength)
      ensures matchLength == 0 ==> matchPosition == old(matchPosition)
      ensures matchLength > 0 ==> Matches(old(Heap()), textBuf[..], r, matchPosition, matchLength)
    {
      ghost var text, h, c := textBuf[..], Heap(), textBuf[r];
      Untouched(h, text, trees, r);
      rchild[r] := NIL;
      lchild[r] := NIL;
      assert Heap() == Cleared(h, r);
      var p, cmp;
      ghost var x, t;
      p, cmp, x, t := Search(r);
      if matchLength >= F {
        ghost var u := Node(t.left, r, t.right);
        SwapDone(h, text, trees, x, t, u);
        Replace(p, r);
        trees := trees[c := Plug(x, u)];
      } else {
        ghost var u := Node(Leaf, r, Leaf);
        LeafDone(h, text, trees, x, u, matchLength);
        if cmp >= 0 {
          rchild[p] := r;
        } else {
          lchild[p] := r;
        }
        parent[r] := p;
        assert Heap() == Linked(Cleared(h, r), c, x, u);
        trees := trees[c := Plug(x, u)];
      }
    }

    /** The end of delete_node: `q`, possibly null, takes the place of `p`, which leaves the trees. */
    method Detach(p: int, q: int)
      requires lchild != rchild && lchild != parent && rchild != parent
      requires Heap().Shape() && DetachBounds(Heap(), p, q)
      modifies lchild, rchild, parent
      ensures Heap() == Detached(old(Heap()), p, q)
    {
      parent[q] := parent[p];
      if rchild[parent[p]] == p {
        rchild[parent[p]] := q;
      } else {
        lchild[parent[p]] := q;
      }
      parent[p] := NIL;
    }

    /** The inner loop of delete_node: the last node of the subtree `l` rooted at `first`, when
        `first` has a right child. */
    method LastNode(first: int, ghost l: Tree) returns (q: int, ghost y: Ctx, ghost s: Tree)
      requires Heap().Shape() && l.Node? && l.id == first && Rep(Heap(), l) && l.right.Node?
      ensures s.Node? && s.id == q && s.right.Leaf?
      ensures l == Plug(y, s) && After(y) == [] && y.RightOf?
    {
      q := rchild[first];
      y, s := RightOf(l.left, l.id, Top), l.right;
      while rchild[q] != NIL
        invariant Plug(y, s) == l && After(y) == [] && y.RightOf?
        invariant s.Node? && Rep(Heap(), s) && s.id == q
        decreases s
      {
        q := rchild[q];
        y, s := RightOf(s.left, s.id, y), s.right;
      }
    }

    /** delete_node, far case: `q` leaves its place and receives the left subtree of `p`. */
    method Lift(p: int, q: int)
      requires lchild != rchild && lchild != parent && rchild != parent
      requires Heap().Shape() && LiftBounds(Heap(), p, q)
      modifies lchild, rchild, parent
      ensures Heap() == Lifted(old(Heap()), p, q)
    {
      rchild[parent[q]] := lchild[q];
      parent[lchild[q]] := parent[q];
      lchild[q] := lchild[p];
      parent[lchild[p]] := q;
    }

    /** delete_node.  `p` leaves its tree, if it is in one, and nothing else changes. */
    method DeleteNode(p: int)
      requires Valid() && 0 <= p < N
      modifies lchild, rchild, parent, this`trees
      ensures Valid()
      ensures Deleted(old(Heap()), Heap(), p)
    {
      if parent[p] == NIL { return; }
      ghost var text, h, c := textBuf[..], Heap(), textBuf[p];
      ghost var x, t := FocusOn(h, text, trees, p);
      var q;
      if rchild[p] == NIL {
        q := lchild[p];
        OneChildDone(h, text, trees, c, x, t, t.left);
        trees := trees[c := Plug(x, t.left)];
      } else if lchild[p] == NIL {
        q := rchild[p];
        OneChildDone(h, text, trees, c, x, t, t.right);
        trees := trees[c := Plug(x, t.right)];
      } else {
        q := lchild[p];
        if rchild[q] != NIL {
          ghost var y, s;
          q, y, s := LastNode(q, t.left);
          FarDone(h, text, trees, c, x, t, y, s);
          trees := trees[c := Plug(x, FarTree(t, y, s))];
          Lift(p, q);
        } else {
          NearDone(h, text, trees, c, x, t, Node(t.left.left, q, t.right));
          trees := trees[c := Plug(x, Node(t.left.left, q, t.right))];
        }
        ghost var g := Heap();
        rchild[q] := rchild[p];
        parent[rchild[p]] := q;
        assert Heap() == HandOver(g, p, q);
      }
      Detach(p, q);
    }
  }
}
