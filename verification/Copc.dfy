/** The COPC hierarchy: octree keys, hierarchy pages and the flattening iterator. */
module CopcHierarchy {
  import opened Wrappers
  import opened Bytes

  // Octree keys

  datatype VoxelKey = VoxelKey(l: i32, x: i32, y: i32, z: i32)

  const ROOT := VoxelKey(0, 0, 0, 0)

  /** Two's complement wrap-around of 32-bit arithmetic. */
  function WrapI32(n: int): i32 {
    (n + 0x8000_0000) % 0x1_0000_0000 - 0x8000_0000
  }

  function Bit(direction: nat, i: nat): nat
    requires i < 3
  {
    if i == 0 then direction % 2 else if i == 1 then direction / 2 % 2 else direction / 4 % 2
  }

  function Child(k: VoxelKey, direction: i32): Result<VoxelKey> {
    if !(0 <= direction < 8) then Err(InvalidDirection(direction))
    else Ok(VoxelKey(WrapI32(k.l + 1), WrapI32(2 * k.x + Bit(direction, 0)), WrapI32(2 * k.y + Bit(direction, 1)),
                     WrapI32(2 * k.z + Bit(direction, 2))))
  }

  /** Shifting right rounds towards negative infinity. */
  function Parent(k: VoxelKey): VoxelKey {
    var l := WrapI32(k.l - 1);
    VoxelKey(if l > 0 then l else 0, k.x / 2, k.y / 2, k.z / 2)
  }

  function Pow2(n: nat): (p: nat)
    ensures p > 0
  {
    if n == 0 then 1 else 2 * Pow2(n - 1)
  }

  predicate IsPath(path: seq<int>) {
    forall i :: 0 <= i < |path| ==> 0 <= path[i] < 8
  }

  /** The key reached from the root by a path of directions. */
  function KeyOf(path: seq<int>): VoxelKey
    requires IsPath(path)
  {
    if path == [] then ROOT
    else Child(KeyOf(path[..|path| - 1]), path[|path| - 1]).value
  }

  /** A key of the octree: its coordinates lie in the grid of its level. */
  predicate InGrid(k: VoxelKey) {
    0 <= k.l <= 31 && 0 <= k.x < Pow2(k.l) && 0 <= k.y < Pow2(k.l) && 0 <= k.z < Pow2(k.l)
  }

  lemma {:induction false} Pow2Bound(n: nat, m: nat)
    requires n <= m
    ensures Pow2(n) <= Pow2(m)
  {
    if n < m {
      Pow2Bound(n, m - 1);
    }
  }

  /** There are eight directions, and any other is refused. */
  lemma ChildExistsIff(k: VoxelKey, d: i32)
    ensures 0 <= d <= 7 ==> Child(k, d).Ok?
    ensures d < 0 || 7 < d ==> Child(k, d) == Err(InvalidDirection(d))
  {
  }

  lemma Pow2Of31()
    ensures Pow2(0) == 1 && Pow2(30) == 0x4000_0000 && Pow2(31) == 0x8000_0000
  {
    assert Pow2(10) == 1024;
    assert Pow2(20) == 1048576;
  }

  lemma ChildInGrid(k: VoxelKey, d: int)
    requires InGrid(k) && k.l < 31 && 0 <= d < 8
    ensures var c := Child(k, d).value;
            && InGrid(c) && c.l == k.l + 1 && Parent(c) == k
            && c.x == 2 * k.x + Bit(d, 0) && c.y == 2 * k.y + Bit(d, 1) && c.z == 2 * k.z + Bit(d, 2)
  {
    hide WrapI32, Pow2;
    Pow2Bound(k.l, 30);
    Pow2Of31();
    ChildCoordinate(k.x, Bit(d, 0), k.l);
    ChildCoordinate(k.y, Bit(d, 1), k.l);
    ChildCoordinate(k.z, Bit(d, 2), k.l);
    WrapKeepsSmall(k.l + 1);
    WrapKeepsSmall(k.l);
  }

  /** Below level 31 a child is exact, one octant for each direction, and its parent is the key it came from. */
  lemma ChildOfGridKey(k: VoxelKey, d: int)
    requires InGrid(k) && k.l < 31 && 0 <= d < 8
    ensures var c := Child(k, d).value;
            && InGrid(c) && c.l == k.l + 1 && Parent(c) == k
            && c.x == 2 * k.x + d % 2 && c.y == 2 * k.y + d / 2 % 2 && c.z == 2 * k.z + d / 4
  {
    ChildInGrid(k, d);
  }

  lemma WrapKeepsSmall(n: int)
    requires -0x8000_0000 <= n < 0x8000_0000
    ensures WrapI32(n) == n
  {
  }

  lemma ChildCoordinate(x: int, bit: nat, l: nat)
    requires 0 <= x < Pow2(l) <= 0x4000_0000 && bit < 2
    ensures WrapI32(2 * x + bit) == 2 * x + bit < Pow2(l + 1) && (2 * x + bit) / 2 == x
  {
    assert Pow2(l + 1) == 2 * Pow2(l);
    WrapKeepsSmall(2 * x + bit);
  }

  predicate Doubles(x: i32) {
    -0x4000_0000 <= x < 0x4000_0000
  }

  lemma DoublingIsExactIff(x: i32, bit: nat)
    requires bit < 2
    ensures WrapI32(2 * x + bit) == 2 * x + bit <==> Doubles(x)
    ensures Doubles(x) <==> WrapI32(2 * x + bit) / 2 == x
  {
  }

  /** The parent of a child is the key it came from if and only if no coordinate leaves 32 bits by doubling
      and the level is not negative. */
  lemma ParentUndoesChildIff(k: VoxelKey, d: int)
    requires 0 <= d < 8
    ensures Parent(Child(k, d).value) == k
            <==> Doubles(k.x) && Doubles(k.y) && Doubles(k.z) && 0 <= k.l
  {
    hide WrapI32, Doubles;
    DoublingIsExactIff(k.x, Bit(d, 0));
    DoublingIsExactIff(k.y, Bit(d, 1));
    DoublingIsExactIff(k.z, Bit(d, 2));
    LevelReturns(k.l);
  }

  /** Wrap-around makes even the last level return. */
  lemma LevelReturns(l: i32)
    ensures WrapI32(WrapI32(l + 1) - 1) == l
  {
  }

  lemma {:induction false} PathStaysInGrid(path: seq<int>)
    requires IsPath(path) && |path| <= 31
    ensures InGrid(KeyOf(path)) && KeyOf(path).l == |path|
  {
    if path != [] {
      PathStaysInGrid(path[..|path| - 1]);
      ChildInGrid(KeyOf(path[..|path| - 1]), path[|path| - 1]);
    }
  }

  lemma BitsDetermine(d: int, e: int)
    requires 0 <= d < 8 && 0 <= e < 8
    ensures Bit(d, 0) == Bit(e, 0) && Bit(d, 1) == Bit(e, 1) && Bit(d, 2) == Bit(e, 2) ==> d == e
  {
  }

  /** Distinct paths reach distinct keys. */
  lemma {:induction false} PathsAreInjective(p: seq<int>, q: seq<int>)
    requires IsPath(p) && IsPath(q) && |p| <= 31 && |q| <= 31 && KeyOf(p) == KeyOf(q)
    ensures p == q
    decreases |p|
  {
    hide Child, Bit, Parent, Pow2;
    PathStaysInGrid(p);
    PathStaysInGrid(q);
    if p != [] {
      var n := |p| - 1;
      var a, b := p[..n], q[..n];
      PathStaysInGrid(a);
      PathStaysInGrid(b);
      ChildInGrid(KeyOf(a), p[n]);
      ChildInGrid(KeyOf(b), q[n]);
      PathsAreInjective(a, b);
      BitsDetermine(p[n], q[n]);
      assert p == a + [p[n]] && q == b + [q[n]];
    }
  }

  lemma DirectionBits(a: nat, b: nat, c: nat)
    requires a < 2 && b < 2 && c < 2
    ensures var d := a + 2 * b + 4 * c; 0 <= d < 8 && Bit(d, 0) == a && Bit(d, 1) == b && Bit(d, 2) == c
  {
  }

  /** Every key of the grid is reached by a path. */
  lemma {:induction false} PathsAreSurjective(k: VoxelKey) returns (path: seq<int>)
    requires InGrid(k)
    ensures IsPath(path) && |path| == k.l && KeyOf(path) == k
    decreases k.l
  {
    hide Child, Bit, Parent, Pow2;
    if k.l == 0 {
      path := [];
      assert Pow2(0) == 1 by {
        Pow2Of31();
      }
    } else {
      var d := k.x % 2 + 2 * (k.y % 2) + 4 * (k.z % 2);
      var parent := Parent(k);
      ParentOfGridKey(k);
      DirectionBits(k.x % 2, k.y % 2, k.z % 2);
      var front := PathsAreSurjective(parent);
      path := front + [d];
      assert path[..|path| - 1] == front;
      ChildInGrid(parent, d);
    }
  }

  /** A parent is in the grid of the level above, and what it leaves out is one bit of each coordinate. */
  lemma ParentOfGridKey(k: VoxelKey)
    requires InGrid(k) && k.l > 0
    ensures var p := Parent(k);
            && InGrid(p) && p.l == k.l - 1
            && k.x == 2 * p.x + k.x % 2 && k.y == 2 * p.y + k.y % 2 && k.z == 2 * p.z + k.z % 2
  {
    WrapKeepsSmall(k.l - 1);
    assert Pow2(k.l) == 2 * Pow2(k.l - 1);
  }

  function Ancestor(k: VoxelKey, n: nat): VoxelKey {
    if n == 0 then k else Parent(Ancestor(k, n - 1))
  }

  /** Climbing from a key passes through the keys of the path's prefixes, up to the root. */
  lemma {:induction false} AncestorsArePrefixes(path: seq<int>, n: nat)
    requires IsPath(path) && n <= |path| <= 31
    ensures Ancestor(KeyOf(path), n) == KeyOf(path[..|path| - n])
    ensures n == |path| ==> Ancestor(KeyOf(path), n) == ROOT
  {
    hide Child, Parent, InGrid;
    if n == 0 {
      assert path[..|path|] == path;
    } else {
      AncestorsArePrefixes(path, n - 1);
      var p := path[..|path| - n + 1];
      var front := p[..|p| - 1];
      assert front == path[..|path| - n];
      PathStaysInGrid(front);
      ChildInGrid(KeyOf(front), p[|p| - 1]);
    }
  }

  // Entries and pages

  datatype Entry = Entry(key: VoxelKey, offset: u64, byteSize: i32, pointCount: i32) {
    predicate IsReferencingPage() {
      pointCount == -1
    }
  }

  function EncodeEntry(e: Entry): (s: seq<byte>)
    ensures |s| == 32
  {
    I32Bytes(e.key.l) + I32Bytes(e.key.x) + I32Bytes(e.key.y) + I32Bytes(e.key.z)
    + U64Bytes(e.offset) + I32Bytes(e.byteSize) + I32Bytes(e.pointCount)
  }

  lemma EntryParts(s: seq<byte>)
    requires |s| == 32
    ensures s[..4] + s[4..8] + s[8..12] + s[12..16] + s[16..24] + s[24..28] + s[28..] == s
  {
    assert s[..4] + s[4..8] == s[..8];
    assert s[..8] + s[8..12] == s[..12];
    assert s[..12] + s[12..16] == s[..16];
    assert s[..16] + s[16..24] == s[..24];
    assert s[..24] + s[24..28] == s[..28];
  }

  function GetEntry(s: seq<byte>): (e: Entry)
    requires |s| == 32
    ensures EncodeEntry(e) == s
  {
    EntryParts(s);
    Entry(VoxelKey(GetI32(s[..4]), GetI32(s[4..8]), GetI32(s[8..12]), GetI32(s[12..16])),
          GetU64(s[16..24]), GetI32(s[24..28]), GetI32(s[28..]))
  }

  lemma EntryReadsBack(e: Entry)
    ensures GetEntry(EncodeEntry(e)) == e
  {
    hide U32Bytes, U64Bytes;
    var s := EncodeEntry(e);
    assert s[..4] == I32Bytes(e.key.l) && s[4..8] == I32Bytes(e.key.x) && s[8..12] == I32Bytes(e.key.y);
    assert s[12..16] == I32Bytes(e.key.z) && s[16..24] == U64Bytes(e.offset);
    assert s[24..28] == I32Bytes(e.byteSize) && s[28..] == I32Bytes(e.pointCount);
  }

  /** Where the fields of an entry stand: level and coordinates of its key, offset, size and point count. */
  lemma EntryLayout(e: Entry)
    ensures var s := EncodeEntry(e);
            && At(s, 0, I32Bytes(e.key.l)) && At(s, 4, I32Bytes(e.key.x)) && At(s, 8, I32Bytes(e.key.y))
            && At(s, 12, I32Bytes(e.key.z)) && At(s, 16, U64Bytes(e.offset)) && At(s, 24, I32Bytes(e.byteSize))
            && At(s, 28, I32Bytes(e.pointCount))
  {
    hide I32Bytes, U64Bytes;
  }

  function EncodePage(es: seq<Entry>): (s: seq<byte>)
    ensures |s| == 32 * |es|
  {
    if es == [] then [] else EncodeEntry(es[0]) + EncodePage(es[1..])
  }

  /** As many entries as fit; trailing bytes are ignored. */
  function ReadPage(s: seq<byte>): (es: seq<Entry>)
    ensures |es| == |s| / 32
  {
    if |s| < 32 then [] else [GetEntry(s[..32])] + ReadPage(s[32..])
  }

  lemma {:induction false} PageReadsBack(es: seq<Entry>, rest: seq<byte>)
    requires |rest| < 32
    ensures ReadPage(EncodePage(es) + rest) == es
  {
    hide EncodeEntry, GetEntry;
    var s := EncodePage(es) + rest;
    if es != [] {
      PageReadsBack(es[1..], rest);
      EntryReadsBack(es[0]);
      assert s[..32] == EncodeEntry(es[0]) && s[32..] == EncodePage(es[1..]) + rest;
    }
  }

  lemma {:induction false} PageRewrites(s: seq<byte>)
    ensures EncodePage(ReadPage(s)) == s[..|s| / 32 * 32]
  {
    hide EncodeEntry, GetEntry;
    if |s| >= 32 {
      PageRewrites(s[32..]);
      var es := ReadPage(s);
      assert es[1..] == ReadPage(s[32..]);
      assert s[..32] + s[32..][..|s[32..]| / 32 * 32] == s[..|s| / 32 * 32];
    }
  }

  // Hierarchies

  datatype Hierarchy = Hierarchy(root: seq<Entry>, subPages: map<VoxelKey, seq<Entry>>)

  /** The slice of the payload that a referencing entry points to exists. */
  predicate InRange(data: seq<byte>, rootOffset: u64, e: Entry) {
    rootOffset <= e.offset && 0 <= e.byteSize && e.offset - rootOffset + e.byteSize <= |data|
  }

  predicate AllInRange(data: seq<byte>, rootOffset: u64, es: seq<Entry>) {
    forall e | e in es && e.IsReferencingPage() :: InRange(data, rootOffset, e)
  }

  /** The slice of the payload that a referencing entry points to. */
  function Slice(data: seq<byte>, rootOffset: u64, e: Entry): seq<byte>
    requires InRange(data, rootOffset, e)
  {
    var start := e.offset - rootOffset;
    data[start..start + e.byteSize]
  }

  /** The pages of the referencing entries; the last of several for one key wins. */
  function SubPages(data: seq<byte>, rootOffset: u64, es: seq<Entry>): map<VoxelKey, seq<Entry>>
    requires AllInRange(data, rootOffset, es)
  {
    if es == [] then map[]
    else
      var last, front := es[|es| - 1], es[..|es| - 1];
      var pages := SubPages(data, rootOffset, front);
      if !last.IsReferencingPage() then pages
      else pages[last.key := ReadPage(Slice(data, rootOffset, last))]
  }

  function ReadHierarchy(data: seq<byte>, rootOffset: u64, rootSize: nat): Hierarchy
    requires rootSize <= |data| && AllInRange(data, rootOffset, ReadPage(data[..rootSize]))
  {
    var root := ReadPage(data[..rootSize]);
    Hierarchy(root, SubPages(data, rootOffset, root))
  }

  /** Reads root page and referenced pages. A slice outside the payload stops the program. */
  method CollectPages(data: seq<byte>, rootOffset: u64, rootSize: nat) returns (r: Option<Hierarchy>)
    ensures r.Some? <==> && rootSize <= |data|
                         && forall e | e in ReadPage(data[..rootSize]) && e.pointCount == -1 ::
                              rootOffset <= e.offset && 0 <= e.byteSize && e.offset - rootOffset + e.byteSize <= |data|
    ensures r.Some? ==> r.value == ReadHierarchy(data, rootOffset, rootSize)
  {
    hide ReadPage;
    if rootSize > |data| {
      return None;
    }
    var root := ReadPage(data[..rootSize]);
    var pages: map<VoxelKey, seq<Entry>> := map[];
    for i := 0 to |root|
      invariant AllInRange(data, rootOffset, root[..i])
      invariant pages == SubPages(data, rootOffset, root[..i])
    {
      assert root[..i + 1][..i] == root[..i];
      assert root[..i + 1] == root[..i] + [root[i]];
      if root[i].IsReferencingPage() {
        if !InRange(data, rootOffset, root[i]) {
          assert root[i] in root;
          return None;
        }
        pages := pages[root[i].key := ReadPage(Slice(data, rootOffset, root[i]))];
      }
    }
    assert root[..|root|] == root;
    return Some(Hierarchy(root, pages));
  }

  /** The payload holds, where an entry with a point count of -1 says, the encoded page that the entry stands for.
      Offsets are counted from the start of the file, the payload begins at `rootOffset`. */
  predicate HoldsPages(data: seq<byte>, rootOffset: u64, es: seq<Entry>, pages: map<VoxelKey, seq<Entry>>) {
    forall e | e in es && e.pointCount == -1 ::
      && rootOffset <= e.offset
      && e.key in pages
      && e.byteSize == 32 * |pages[e.key]|
      && At(data, e.offset - rootOffset, EncodePage(pages[e.key]))
  }

  predicate IsReferenced(es: seq<Entry>, key: VoxelKey) {
    exists e | e in es :: e.pointCount == -1 && e.key == key
  }

  lemma {:induction false} SubPagesReadBack(data: seq<byte>, rootOffset: u64, es: seq<Entry>,
                                            pages: map<VoxelKey, seq<Entry>>, key: VoxelKey)
    requires HoldsPages(data, rootOffset, es, pages)
    ensures AllInRange(data, rootOffset, es)
    ensures key in SubPages(data, rootOffset, es) <==> IsReferenced(es, key)
    ensures IsReferenced(es, key) ==> key in pages && SubPages(data, rootOffset, es)[key] == pages[key]
  {
    hide EncodePage, ReadPage;
    if es != [] {
      var n := |es| - 1;
      var last := es[n];
      assert es == es[..n] + [last];
      SubPagesReadBack(data, rootOffset, es[..n], pages, key);
      if last.IsReferencingPage() {
        PageReadsBack(pages[last.key], []);
        assert EncodePage(pages[last.key]) + [] == EncodePage(pages[last.key]);
      }
    }
  }

  /** A payload that holds the root page and, where its entries say, all referenced pages is read as exactly
      that hierarchy, in whatever order the pages stand and whatever lies between them. */
  lemma HierarchyReadsBack(data: seq<byte>, rootOffset: u64, h: Hierarchy)
    requires EncodePage(h.root) <= data && HoldsPages(data, rootOffset, h.root, h.subPages)
    requires forall key | key in h.subPages :: IsReferenced(h.root, key)
    ensures AllInRange(data, rootOffset, ReadPage(data[..32 * |h.root|]))
    ensures ReadHierarchy(data, rootOffset, 32 * |h.root|) == h
  {
    hide EncodePage, ReadPage, IsReferenced, HoldsPages;
    PageReadsBack(h.root, []);
    assert data[..32 * |h.root|] == EncodePage(h.root) + [];
    SubPagesReadBack(data, rootOffset, h.root, h.subPages, ROOT);
    var pages := SubPages(data, rootOffset, h.root);
    forall key: VoxelKey
      ensures key in pages <==> key in h.subPages
      ensures key in pages ==> pages[key] == h.subPages[key]
    {
      SubPagesReadBack(data, rootOffset, h.root, h.subPages, key);
      if key in h.subPages {
        assert IsReferenced(h.root, key);
      }
    }
    assert pages == h.subPages;
  }

  // Iteration

  datatype Item = Found(entry: Entry) | Missing(entry: Entry)

  function FoundAll(es: seq<Entry>): (items: seq<Item>)
    ensures |items| == |es| && forall i :: 0 <= i < |es| ==> items[i] == Found(es[i])
  {
    seq(|es|, i requires 0 <= i < |es| => Found(es[i]))
  }

  function Expand(e: Entry, pages: map<VoxelKey, seq<Entry>>): seq<Item> {
    if !e.IsReferencingPage() then [Found(e)]
    else if e.key in pages then FoundAll(pages[e.key])
    else [Missing(e)]
  }

  /** The flattened hierarchy: every root entry in place, or the page it refers to. */
  function Flatten(root: seq<Entry>, pages: map<VoxelKey, seq<Entry>>): seq<Item> {
    if root == [] then [] else Expand(root[0], pages) + Flatten(root[1..], pages)
  }

  /** The flattened hierarchy entry by entry: a point count of -1 stands for a page, any other for the entry itself. */
  lemma FlattenStep(root: seq<Entry>, i: nat, pages: map<VoxelKey, seq<Entry>>)
    requires i <= |root|
    ensures i == |root| ==> Flatten(root[i..], pages) == []
    ensures i < |root| ==>
              var e, all, rest := root[i], Flatten(root[i..], pages), Flatten(root[i + 1..], pages);
              if e.pointCount != -1 then all == [Found(e)] + rest
              else if e.key in pages then all == FoundAll(pages[e.key]) + rest
              else all == [Missing(e)] + rest
  {
    if i < |root| {
      assert root[i..][1..] == root[i + 1..];
    }
  }

  lemma FoundAllStep(es: seq<Entry>, rest: seq<Item>)
    ensures es == [] ==> FoundAll(es) + rest == rest
    ensures es != [] ==>
              var items := FoundAll(es) + rest;
              items != [] && items[0] == Found(es[0]) && items[1..] == FoundAll(es[1..]) + rest
  {
    var items := FoundAll(es) + rest;
    if es != [] {
      assert items[1..] == FoundAll(es[1..]) + rest;
    }
  }

  lemma ItemStep(item: Item, rest: seq<Item>)
    ensures ([item] + rest)[0] == item && ([item] + rest)[1..] == rest
  {
  }

  class EntryIterator {
    const root: seq<Entry>
    const subPages: map<VoxelKey, seq<Entry>>
    var rootIndex: nat
    var page: Option<seq<Entry>>

    ghost predicate Valid()
      reads this
    {
      rootIndex <= |root|
    }

    /** What is still to come. */
    ghost function Remaining(): seq<Item>
      requires Valid()
      reads this
    {
      var rest := Flatten(root[rootIndex..], subPages);
      if page.Some? then FoundAll(page.value) + rest else rest
    }

    constructor (h: Hierarchy)
      ensures Valid() && Remaining() == Flatten(h.root, h.subPages)
    {
      root, subPages := h.root, h.subPages;
      rootIndex, page := 0, None;
    }

    /** Yields the first of what remains, opening and leaving pages on the way. */
    method Next() returns (r: Option<Item>)
      requires Valid()
      modifies this
      ensures Valid()
      ensures old(Remaining()) == [] ==> r == None && Remaining() == []
      ensures old(Remaining()) != [] ==> r == Some(old(Remaining())[0]) && Remaining() == old(Remaining())[1..]
      ensures old(page).None? && old(rootIndex) < |root| ==>
                var e := root[old(rootIndex)];
                && (e.pointCount != -1 ==> r == Some(Found(e)))
                && (e.pointCount == -1 && e.key !in subPages ==> r == Some(Missing(e)))
    {
      hide Flatten, FoundAll, Expand;
      while true
        invariant Valid() && Remaining() == old(Remaining())
        invariant old(page).None? && old(rootIndex) < |root| ==>
                    || (page.None? && rootIndex == old(rootIndex))
                    || (root[old(rootIndex)].pointCount == -1 && root[old(rootIndex)].key in subPages)
        decreases 2 * (|root| - rootIndex) + if page.Some? then 1 else 0
      {
        ghost var rest := Flatten(root[rootIndex..], subPages);
        if page.Some? {
          FoundAllStep(page.value, rest);
          if page.value != [] {
            var entry := page.value[0];
            page := Some(page.value[1..]);
            return Some(Found(entry));
          }
          page := None;
        } else {
          FlattenStep(root, rootIndex, subPages);
          if rootIndex == |root| {
            return None;
          }
          var entry := root[rootIndex];
          rootIndex := rootIndex + 1;
          if !entry.IsReferencingPage() {
            ItemStep(Found(entry), Flatten(root[rootIndex..], subPages));
            return Some(Found(entry));
          } else if entry.key in subPages {
            page := Some(subPages[entry.key]);
          } else {
            ItemStep(Missing(entry), Flatten(root[rootIndex..], subPages));
            return Some(Missing(entry));
          }
        }
      }
    }
  }

  /** Iterating to the end yields exactly the flattened hierarchy. */
  method CollectEntries(h: Hierarchy) returns (items: seq<Item>)
    ensures items == Flatten(h.root, h.subPages)
  {
    hide Flatten, EntryIterator.Remaining;
    var iter := new EntryIterator(h);
    items := [];
    var next := iter.Next();
    while next.Some?
      invariant iter.Valid()
      invariant next.Some? ==> items + [next.value] + iter.Remaining() == Flatten(h.root, h.subPages)
      invariant next.None? ==> items == Flatten(h.root, h.subPages)
      decreases next.Some?, |iter.Remaining()|
    {
      ghost var left := iter.Remaining();
      items := items + [next.value];
      next := iter.Next();
      assert left == [] || left == [left[0]] + left[1..];
    }
  }

  /** Every referencing entry of a hierarchy read from in-range data finds its page. */
  lemma {:induction false} PagesAreThere(data: seq<byte>, rootOffset: u64, es: seq<Entry>, e: Entry)
    requires AllInRange(data, rootOffset, es) && e in es && e.IsReferencingPage()
    ensures e.key in SubPages(data, rootOffset, es)
  {
    var n := |es| - 1;
    assert es == es[..n] + [es[n]];
    if e != es[n] {
      PagesAreThere(data, rootOffset, es[..n], e);
    }
  }

  lemma {:induction false} NothingMissing(root: seq<Entry>, pages: map<VoxelKey, seq<Entry>>)
    requires forall e | e in root && e.IsReferencingPage() :: e.key in pages
    ensures forall item | item in Flatten(root, pages) :: item.Found?
  {
    if root != [] {
      assert root[0] in root;
      NothingMissing(root[1..], pages);
    }
  }

  /** So iterating over it never reports a missing page. */
  lemma ReadHierarchyIsComplete(data: seq<byte>, rootOffset: u64, rootSize: nat)
    requires rootSize <= |data| && AllInRange(data, rootOffset, ReadPage(data[..rootSize]))
    ensures var h := ReadHierarchy(data, rootOffset, rootSize);
            forall item | item in Flatten(h.root, h.subPages) :: item.Found?
  {
    var h := ReadHierarchy(data, rootOffset, rootSize);
    forall e | e in h.root && e.IsReferencingPage() ensures e.key in h.subPages {
      PagesAreThere(data, rootOffset, h.root, e);
    }
    NothingMissing(h.root, h.subPages);
  }
}
