/** The byte trie over masked prefixes (internal/filter/index.go). */
module BitTrie {
  import opened Wrappers
  import opened Bits
  import opened Identity
  import opened Filter
  import opened Entries

  /** An entry with the high bits of the next byte still to test; a zero mask means none. */
  datatype BitEntry = BitEntry(entry: Entry, remMask: bv8, remValue: bv8)

  // ---------------------------------------------------------- leading ones

  function ByteLeadingOnes(b: bv8): (n: nat)
    ensures n <= 8
    ensures forall k: nat | k < n :: ByteBit(b, k)
    ensures n < 8 ==> !ByteBit(b, n)
  {
    if b & 0x80 == 0 then 0 else if b & 0x40 == 0 then 1 else if b & 0x20 == 0 then 2 else if b & 0x10 == 0 then 3
    else if b & 0x08 == 0 then 4 else if b & 0x04 == 0 then 5 else if b & 0x02 == 0 then 6 else if b & 0x01 == 0 then 7
    else 8
  }

  /** The number of ones a mask starts with. */
  method LeadingOnes(mask: seq<bv8>) returns (n: nat)
    ensures IsLeadingRun(mask, n)
  {
    n := 0;
    for i := 0 to |mask|
      invariant n == 8 * i
      invariant forall j: nat | j < n :: BitAt(mask, j)
    {
      if mask[i] != 0xff {
        var ones := ByteLeadingOnes(mask[i]);
        LeadingBelowEight(mask[i]);
        assert !BitAt(mask, n + ones);
        return n + ones;
      }
      AllOnes(mask[i]);
      n := n + 8;
    }
  }

  lemma LeadingBelowEight(b: bv8)
    requires b != 0xff
    ensures ByteLeadingOnes(b) < 8
  {
  }

  lemma AllOnes(b: bv8)
    requires b == 0xff
    ensures forall k: nat | k < 8 :: ByteBit(b, k)
  {
  }

  /** The byte whose first rem bits are ones. */
  function HighOnes(rem: nat): bv8
    requires 0 < rem < 8
  {
    if rem == 1 then 0x80 else if rem == 2 then 0xc0 else if rem == 3 then 0xe0 else if rem == 4 then 0xf0
    else if rem == 5 then 0xf8 else if rem == 6 then 0xfc else 0xfe
  }

  lemma HighOnesBits(rem: nat, k: nat)
    requires 0 < rem < 8 && k < 8
    ensures ByteBit(HighOnes(rem), k) == (k < rem)
  {
  }

  // ---------------------------------------------------------------- prefix

  /** n is the length of the mask's leading run of ones. */
  ghost predicate IsLeadingRun(mask: seq<bv8>, n: nat) {
    n <= 8 * |mask| && (forall i: nat | i < n :: BitAt(mask, i)) && (n < 8 * |mask| ==> !BitAt(mask, n))
  }

  /** Every mask has a leading run. */
  ghost function RunOf(mask: seq<bv8>, n: nat): (r: nat)
    requires n <= 8 * |mask| && forall i: nat | i < n :: BitAt(mask, i)
    ensures IsLeadingRun(mask, r)
    decreases 8 * |mask| - n
  {
    if n < 8 * |mask| && BitAt(mask, n) then RunOf(mask, n + 1) else n
  }

  /** The leading run is unique, so where an entry lives depends on its mask alone. */
  lemma LeadingRunUnique(mask: seq<bv8>, m: nat, n: nat)
    requires IsLeadingRun(mask, m) && IsLeadingRun(mask, n)
    ensures m == n
  {
  }

  /** An entry's trie form for a leading run of n ones. */
  function BitEntryOf(e: Entry, b: BitPattern, n: nat): BitEntry
    requires n <= 8 * |b.mask|
  {
    if n % 8 == 0 then BitEntry(e, 0, 0)
    else BitEntry(e, HighOnes(n % 8), b.value[n / 8] & HighOnes(n % 8))
  }

  /** A byte the mask pins whole is the value's byte. */
  lemma WholeByte(b: BitPattern, i: nat, bits: seq<bv8>)
    requires i < |b.mask| && i < |bits|
    requires bits[i] & b.mask[i] == b.value[i] & b.mask[i]
    requires forall j: nat | 8 * i <= j < 8 * i + 8 :: BitAt(b.mask, j)
    ensures bits[i] == b.value[i]
  {
    MaskedByte(bits[i], b.value[i], b.mask[i]);
    forall k | 0 <= k < 8
      ensures ByteBit(bits[i], k) == ByteBit(b.value[i], k)
    {
      assert BitAt(b.mask, 8 * i + k);
    }
    ByteExtensionality(bits[i], b.value[i]);
  }

  lemma BitOfByte(data: seq<bv8>, i: nat, k: nat)
    requires i < |data| && k < 8
    ensures BitAt(data, 8 * i + k) == ByteBit(data[i], k)
  {
    hide ByteBit;
  }

  /** Bytes that agree where m is set agree where fewer bits are set. */
  lemma HigherBits(x: bv8, y: bv8, m: bv8, h: bv8)
    requires x & m == y & m && forall k | 0 <= k < 8 && ByteBit(h, k) :: ByteBit(m, k)
    ensures x & h == y & h
  {
    hide ByteBit;
    MaskedByte(x, y, m);
    MaskedByte(x, y, h);
  }

  /** High bits the mask pins are the value's bits. */
  lemma HighBits(b: BitPattern, i: nat, rem: nat, bits: seq<bv8>)
    requires i < |b.mask| && i < |bits| && 0 < rem < 8
    requires bits[i] & b.mask[i] == b.value[i] & b.mask[i]
    requires forall j: nat | 8 * i <= j < 8 * i + rem :: BitAt(b.mask, j)
    ensures bits[i] & HighOnes(rem) == b.value[i] & HighOnes(rem)
  {
    hide ByteBit, HighOnes, BitAt;
    var h := HighOnes(rem);
    forall k | 0 <= k < 8 && ByteBit(h, k)
      ensures ByteBit(b.mask[i], k)
    {
      HighOnesBits(rem, k);
      BitOfByte(b.mask, i, k);
    }
    HigherBits(bits[i], b.value[i], b.mask[i], h);
  }

  /** A matching tag starts with the value bytes the leading run pins, and agrees on the remaining high bits. */
  lemma PrefixOfMatch(b: BitPattern, n: nat, bits: seq<bv8>, bitLen: nat)
    requires IsLeadingRun(b.mask, n) && MatchBits(b, bits, bitLen)
    ensures n / 8 <= |bits| && b.value[..n / 8] == bits[..n / 8]
    ensures n % 8 != 0 ==> n / 8 < |bits| && bits[n / 8] & HighOnes(n % 8) == b.value[n / 8] & HighOnes(n % 8)
  {
    forall i | 0 <= i < n / 8
      ensures b.value[i] == bits[i]
    {
      WholeByte(b, i, bits);
    }
    if n % 8 != 0 {
      HighBits(b, n / 8, n % 8, bits);
    }
  }

  // ----------------------------------------------------------------- nodes

  predicate Less(a: bv8, b: bv8) {
    a < b
  }

  lemma LessIsStrictOrder()
    ensures forall a, b, c :: Less(a, b) && Less(b, c) ==> Less(a, c)
    ensures forall a, b :: Less(a, b) ==> a != b && !Less(b, a)
    ensures forall a, b :: !Less(a, b) ==> a == b || Less(b, a)
  {
  }

  predicate Sorted(keys: seq<bv8>) {
    forall i, j | 0 <= i < j < |keys| :: Less(keys[i], keys[j])
  }

  /** Binary search: the position of a key, or where it would go. */
  method BinarySearch(keys: seq<bv8>, b: bv8) returns (i: nat, found: bool)
    requires Sorted(keys)
    ensures i <= |keys|
    ensures found <==> i < |keys| && keys[i] == b
    ensures found <==> b in keys
    ensures !found ==> (forall k | 0 <= k < i :: Less(keys[k], b)) && (forall k | i <= k < |keys| :: Less(b, keys[k]))
  {
    LessIsStrictOrder();
    hide Less;
    i := 0;
    var j := |keys|;
    while i < j
      invariant 0 <= i <= j <= |keys|
      invariant forall k | 0 <= k < i :: Less(keys[k], b)
      invariant forall k | j <= k < |keys| :: !Less(keys[k], b)
    {
      var mid := (i + j) / 2;
      if Less(keys[mid], b) {
        i := mid + 1;
      } else {
        j := mid;
      }
    }
    found := i < |keys| && keys[i] == b;
  }

  /** One byte of masked prefix: sorted keys with their children, and the entries ending here. */
  class BitNode {
    var keys: seq<bv8>
    var children: seq<BitNode>
    var entries: seq<BitEntry>

    ghost predicate Valid()
      reads this
    {
      Sorted(keys) && |keys| == |children|
    }

    constructor ()
      ensures keys == [] && children == [] && entries == []
    {
      keys, children, entries := [], [], [];
    }

    /** The child under a byte, inserted in key order when it is new; i is where it sits. */
    method Child(b: bv8) returns (c: BitNode, ghost i: nat)
      requires Valid()
      modifies this`keys, this`children
      ensures Valid() && i < |keys| && keys[i] == b && children[i] == c
      ensures b in old(keys) ==> keys == old(keys) && children == old(children)
      ensures b !in old(keys) ==> fresh(c) && c.keys == [] && c.children == [] && c.entries == []
      ensures b !in old(keys) ==> i <= |old(keys)| && keys == old(keys)[..i] + [b] + old(keys)[i..]
      ensures b !in old(keys) ==> children == old(children)[..i] + [c] + old(children)[i..]
    {
      hide Less;
      var at, found := BinarySearch(keys, b);
      if !found {
        c := new BitNode();
        keys := keys[..at] + [b] + keys[at..];
        children := children[..at] + [c] + children[at..];
      } else {
        c := children[at];
      }
      i := at;
    }
  }

  // ----------------------------------------------------------------- tries

  /** A place in a trie: the scheme of its root and the bytes from there. */
  datatype Place = Place(scheme: SchemeID, path: seq<bv8>)

  function Below(k: Place, b: bv8): Place {
    Place(k.scheme, k.path + [b])
  }

  /** Patterns that go into the byte trie. */
  predicate BitTested(p: Pattern) {
    p.level.LevelEncoding? && p.bits.Some?
  }

  /** Entry e, whose mask starts with n ones, lives at this place. */
  function HomeOf(e: Entry, n: nat): Place
    requires BitTested(e.pattern) && n <= 8 * |e.pattern.bits.value.mask|
  {
    Place(e.pattern.scheme, e.pattern.bits.value.value[..n / 8])
  }

  /** Entry e's mask starts with n ones, so its home is less than d bytes deep. */
  ghost predicate HomeDepth(e: Entry, n: nat, d: nat) {
    BitTested(e.pattern) && IsLeadingRun(e.pattern.bits.value.mask, n) && n / 8 < d
  }

  /** One byte trie per scheme. The ghost directory `at` names every node by its place. */
  class BitTries {
    var roots: map<SchemeID, BitNode>
    ghost var at: map<Place, BitNode>
    ghost var stored: set<Entry>

    constructor ()
      ensures Valid() && stored == {} && at == map[]
    {
      roots := map[];
      at := map[];
      stored := {};
    }

    /** The roots are the directory's empty paths. */
    ghost predicate RootsListed()
      reads this
    {
      (forall k :: k in roots <==> Place(k, []) in at) && forall k | k in roots :: roots[k] == at[Place(k, [])]
    }

    ghost predicate NodesValid()
      reads this, at.Values
    {
      forall k | k in at :: at[k].Valid()
    }

    /** A node's children are the directory's nodes one byte below it. */
    ghost predicate ChildrenListed()
      reads this, at.Values
      requires NodesValid()
    {
      forall k, i | k in at && 0 <= i < |at[k].keys| ::
        Below(k, at[k].keys[i]) in at && at[Below(k, at[k].keys[i])] == at[k].children[i]
    }

    /** Every node below a root is a child of the node above it. */
    ghost predicate NoOrphans()
      reads this, at.Values
    {
      forall k, b | Below(k, b) in at :: k in at && b in at[k].keys
    }

    ghost predicate Separate()
      reads this
    {
      forall k, l | k in at && l in at && k != l :: at[k] != at[l]
    }

    ghost predicate Shape()
      reads this, at.Values
    {
      RootsListed() && NodesValid() && ChildrenListed() && NoOrphans() && Separate()
    }

    /** Every stored entry is at its home, and every entry in the trie is stored. */
    ghost predicate Contents()
      reads this, at.Values
    {
      && (forall k, e | k in at && e in at[k].entries :: e.entry in stored)
      && (forall e | e in stored :: BitTested(e.pattern))
      && (forall e, n | e in stored && IsLeadingRun(e.pattern.bits.value.mask, n) ::
            HomeOf(e, n) in at && BitEntryOf(e, e.pattern.bits.value, n) in at[HomeOf(e, n)].entries)
    }

    ghost predicate Valid()
      reads this, at.Values
    {
      Shape() && Contents()
    }

    /** Every place on the way to a node is a node. */
    lemma PrefixIsNode(k: Place, d: nat)
      requires Shape() && k in at && d <= |k.path|
      ensures Place(k.scheme, k.path[..d]) in at
      decreases |k.path| - d
    {
      if d == |k.path| {
        assert k.path[..d] == k.path;
      } else {
        PrefixIsNode(k, d + 1);
        var parent := Place(k.scheme, k.path[..d]);
        assert k.path[..d + 1] == k.path[..d] + [k.path[d]];
        assert Place(k.scheme, k.path[..d + 1]) == Below(parent, k.path[d]);
      }
    }

    /** New nodes without entries keep every stored entry at home. */
    twostate lemma ContentsKept()
      requires old(Contents()) && stored == old(stored)
      requires forall k | k in old(at) :: k in at && at[k] == old(at[k]) && at[k].entries == old(at[k].entries)
      requires forall k | k in at && k !in old(at) :: at[k].entries == []
      ensures Contents()
    {
      hide BitEntryOf, HomeOf, IsLeadingRun;
    }

    /** The structural half of finding a root: a scheme without one gets an empty node. */
    method ListRoot(scheme: SchemeID) returns (node: BitNode)
      requires Shape()
      modifies this`roots, this`at
      ensures Shape()
      ensures Place(scheme, []) in at && at[Place(scheme, [])] == node
      ensures forall l | l in old(at) :: l in at && at[l] == old(at[l])
      ensures forall l | l in at && l !in old(at) :: fresh(at[l]) && at[l].entries == []
    {
      if scheme in roots {
        node := roots[scheme];
      } else {
        node := new BitNode();
        assert node.Valid();
        hide Sorted;
        roots := roots[scheme := node];
        at := at[Place(scheme, []) := node];
        forall l, m | l in at && 0 <= m < |at[l].keys|
          ensures Below(l, at[l].keys[m]) in at && at[Below(l, at[l].keys[m])] == at[l].children[m]
        {
          assert Below(l, old(at[l].keys)[m]) in old(at);
        }
        forall l, x | Below(l, x) in at
          ensures l in at && x in at[l].keys
        {
          assert Below(l, x) in old(at);
        }
        assert RootsListed();
        assert NodesValid();
        assert ChildrenListed();
        assert NoOrphans();
        assert Separate();
      }
    }

    /** The root of a scheme, created when it is missing. */
    method Root(scheme: SchemeID) returns (node: BitNode)
      requires Valid()
      modifies this`roots, this`at
      ensures Valid()
      ensures Place(scheme, []) in at && at[Place(scheme, [])] == node
      ensures fresh(at.Values - old(at.Values))
    {
      hide Contents;
      node := ListRoot(scheme);
      hide Shape;
      ContentsKept();
    }

    /** A node gaining an empty child, with nothing else changed, keeps directory and nodes in step. */
    twostate lemma GrownShape(g: Growth)
      requires old(Shape()) && roots == old(roots) && NodesValid()
      requires g.k in old(at) && g.Child() !in old(at) && g.Child() in at && at == old(at)[g.Child() := at[g.Child()]]
      requires at[g.Child()] !in old(at.Values) && at[g.Child()].keys == []
      requires g.i <= |old(at[g.k].keys)|
      requires at[g.k].keys == old(at[g.k].keys)[..g.i] + [g.b] + old(at[g.k].keys)[g.i..]
      requires at[g.k].children == old(at[g.k].children)[..g.i] + [at[g.Child()]] + old(at[g.k].children)[g.i..]
      requires forall l | l in old(at) && l != g.k ::
               at[l].keys == old(at[l].keys) && at[l].children == old(at[l].children)
      ensures Shape()
    {
      hide Sorted;
      var k, i := g.k, g.i;
      forall l, m | l in at && 0 <= m < |at[l].keys|
        ensures Below(l, at[l].keys[m]) in at && at[Below(l, at[l].keys[m])] == at[l].children[m]
      {
        if l == k && m != i {
          var m' := if m < i then m else m - 1;
          assert old(at[k].keys)[m'] == at[k].keys[m] && old(at[k].children)[m'] == at[k].children[m];
          assert Below(k, old(at[k].keys)[m']) in old(at);
        } else if l != k && l in old(at) {
          assert Below(l, old(at[l].keys)[m]) in old(at);
        }
      }
      forall l, x | Below(l, x) in at
        ensures l in at && x in at[l].keys
      {
        if Below(l, x) == g.Child() {
          BelowInjective(l, x, k, g.b);
        } else {
          assert Below(l, x) in old(at);
        }
      }
    }

    /** The structural half of a step down: the node's own children and the directory. */
    method Grow(node: BitNode, ghost k: Place, b: bv8) returns (c: BitNode)
      requires Shape() && k in at && at[k] == node
      modifies this`at, node`keys, node`children
      ensures Shape()
      ensures Below(k, b) in at && at[Below(k, b)] == c
      ensures forall l | l in old(at) :: l in at && at[l] == old(at[l])
      ensures forall l | l in at && l !in old(at) :: fresh(at[l]) && at[l].entries == []
    {
      hide Less;
      ghost var i: nat;
      ghost var keys, children := node.keys, node.children;
      c, i := node.Child(b);
      if b in keys {
        assert Below(k, keys[i]) in at && at[Below(k, keys[i])] == children[i];
      } else {
        assert Below(k, b) !in at;
        at := at[Below(k, b) := c];
        GrownShape(Growth(k, b, i));
      }
    }

    /** One step down, inserting the child when it is new. */
    method Descend(node: BitNode, ghost k: Place, b: bv8) returns (c: BitNode)
      requires Valid() && k in at && at[k] == node
      modifies this`at, node`keys, node`children
      ensures Valid()
      ensures Below(k, b) in at && at[Below(k, b)] == c
      ensures fresh(at.Values - old(at.Values))
    {
      hide Contents;
      c := Grow(node, k, b);
      hide Shape;
      ContentsKept();
    }

    /** Directory, roots, keys and children being what they were, so is the structure. */
    twostate lemma ShapeKept()
      requires old(Shape()) && roots == old(roots) && at == old(at)
      requires forall k | k in at :: at[k].keys == old(at[k].keys) && at[k].children == old(at[k].children)
      ensures Shape()
    {
      hide Sorted;
      forall k, i | k in at && 0 <= i < |at[k].keys|
        ensures Below(k, at[k].keys[i]) in at && at[Below(k, at[k].keys[i])] == at[k].children[i]
      {
        assert Below(k, old(at[k].keys)[i]) in old(at);
      }
    }

    /** Appending an entry at its home. */
    method Append(node: BitNode, e: Entry, n: nat, be: BitEntry)
      requires Valid() && BitTested(e.pattern) && IsLeadingRun(e.pattern.bits.value.mask, n)
      requires HomeOf(e, n) in at && at[HomeOf(e, n)] == node && be == BitEntryOf(e, e.pattern.bits.value, n)
      modifies this`stored, node`entries
      ensures Valid() && stored == old(stored) + {e}
    {
      hide IsLeadingRun, HomeOf;
      assert be.entry == e;
      hide BitEntryOf;
      node.entries := node.entries + [be];
      stored := stored + {e};
      ShapeKept();
      hide Shape;
      forall m | IsLeadingRun(e.pattern.bits.value.mask, m)
        ensures m == n
      {
        LeadingRunUnique(e.pattern.bits.value.mask, m, n);
      }
    }

    /** The node the pinned bytes name, created with everything above it where missing. */
    method Home(e: Entry, n: nat) returns (node: BitNode)
      requires Valid() && BitTested(e.pattern) && n <= 8 * |e.pattern.bits.value.mask|
      modifies this, at.Values
      ensures Valid() && stored == old(stored)
      ensures HomeOf(e, n) in at && at[HomeOf(e, n)] == node
      ensures fresh(at.Values - old(at.Values))
    {
      hide Shape, Contents;
      var b := e.pattern.bits.value;
      node := Root(e.pattern.scheme);
      ghost var k := Place(e.pattern.scheme, []);
      for depth := 0 to n / 8
        invariant Valid() && stored == old(stored)
        invariant k == Place(e.pattern.scheme, b.value[..depth]) && k in at && at[k] == node
        invariant fresh(at.Values - old(at.Values))
      {
        node := Descend(node, k, b.value[depth]);
        k := Below(k, b.value[depth]);
        assert b.value[..depth] + [b.value[depth]] == b.value[..depth + 1];
      }
    }

    /** Adding a bit-tested pattern: walk to the node its pinned bytes name and append it there. */
    method Add(e: Entry)
      requires Valid() && BitTested(e.pattern)
      modifies this, at.Values
      ensures Valid() && stored == old(stored) + {e}
      ensures fresh(at.Values - old(at.Values))
    {
      hide Shape, Contents, HighOnes;
      var b := e.pattern.bits.value;
      var n := LeadingOnes(b.mask);
      var node := Home(e, n);
      var full := n / 8;
      var be := BitEntry(e, 0, 0);
      var rem := n % 8;
      if rem != 0 {
        be := BitEntry(e, HighOnes(rem), b.value[full] & HighOnes(rem));
      }
      hide IsLeadingRun;
      Append(node, e, n, be);
    }

    /** The high bits an entry pins in the next byte agree with the tag, which has such a byte. */
    static predicate Passes(be: BitEntry, bits: seq<bv8>, depth: nat) {
      be.remMask == 0 || (depth < |bits| && bits[depth] & be.remMask == be.remValue)
    }

    /** Every matching stored entry whose home is less than d bytes deep is reported. */
    ghost predicate CompleteTo(found: seq<ID>, ids: seq<ID>, s: Subject, d: nat)
      reads this
      requires RankedWithin(stored, ids)
    {
      forall e, n | e in stored && HomeDepth(e, n, d) && Matches(e.pattern, s) :: ids[e.rank] in found
    }

    /** found lists the node's entries that pass and match, and nothing that does not match. */
    ghost predicate Confirmed(found: seq<ID>, node: BitNode, ids: seq<ID>, s: Subject, depth: nat)
      reads node
      requires forall be | be in node.entries :: be.entry.rank < |ids|
    {
      && (forall x | x in found :: exists be ::
         be in node.entries && Matches(be.entry.pattern, s) && ids[be.entry.rank] == x)
      && (forall be | be in node.entries && Passes(be, s.bits, depth) && Matches(be.entry.pattern, s) ::
            ids[be.entry.rank] in found)
    }

    /** The entries of one node, confirmed one by one with the match rule. */
    method Confirm(node: BitNode, ids: seq<ID>, s: Subject, depth: nat, dst: seq<ID>)
      returns (r: seq<ID>, ghost found: seq<ID>)
      requires forall be | be in node.entries :: be.entry.rank < |ids|
      ensures r == dst + found && Confirmed(found, node, ids, s, depth)
    {
      hide Matches, Passes;
      r, found := dst, [];
      for i := 0 to |node.entries|
        invariant r == dst + found
        invariant forall x | x in found :: exists be ::
                  be in node.entries && Matches(be.entry.pattern, s) && ids[be.entry.rank] == x
        invariant forall j | 0 <= j < i && Passes(node.entries[j], s.bits, depth) &&
                  Matches(node.entries[j].entry.pattern, s) ::
                    ids[node.entries[j].entry.rank] in found
      {
        var be := node.entries[i];
        if Passes(be, s.bits, depth) {
          if Matches(be.entry.pattern, s) {
            assert be in node.entries;
            r := r + [ids[be.entry.rank]];
            found := found + [ids[be.entry.rank]];
          }
        }
      }
    }

    /** A matching entry lives on the tag's own path, its home being a node and its high bits passing. */
    lemma HomeOnPath(e: Entry, n: nat, s: Subject)
      requires Valid() && e in stored && IsLeadingRun(e.pattern.bits.value.mask, n) && Matches(e.pattern, s)
      ensures n / 8 <= |s.bits|
      ensures HomeOf(e, n) == Place(s.scheme, s.bits[..n / 8]) && HomeOf(e, n) in at
      ensures BitEntryOf(e, e.pattern.bits.value, n) in at[HomeOf(e, n)].entries
      ensures Passes(BitEntryOf(e, e.pattern.bits.value, n), s.bits, n / 8)
    {
      hide Shape, MatchBits, IsLeadingRun, HighOnes;
      PrefixOfMatch(e.pattern.bits.value, n, s.bits, s.bitLen);
    }

    ghost predicate InStored(node: BitNode)
      reads this, node
    {
      forall be | be in node.entries :: be.entry in stored
    }

    /** What one node adds keeps the report sound and completes its depth. */
    lemma Completed(before: seq<ID>, more: seq<ID>, ids: seq<ID>, s: Subject, d: nat)
      requires Valid() && RankedWithin(stored, ids) && d <= |s.bits| && Place(s.scheme, s.bits[..d]) in at
      requires Sound(before, ids, stored, s) && CompleteTo(before, ids, s, d)
      requires InStored(at[Place(s.scheme, s.bits[..d])])
      requires Confirmed(more, at[Place(s.scheme, s.bits[..d])], ids, s, d)
      ensures Sound(before + more, ids, stored, s) && CompleteTo(before + more, ids, s, d + 1)
    {
      hide Shape, Contents, Matches, Passes;
      ConfirmedDepth(before + more, ids, s, d);
    }

    /** Confirming the node on the tag's path completes its depth. */
    lemma ConfirmedDepth(found: seq<ID>, ids: seq<ID>, s: Subject, d: nat)
      requires Valid() && RankedWithin(stored, ids) && d <= |s.bits| && Place(s.scheme, s.bits[..d]) in at
      requires CompleteTo(found, ids, s, d)
      requires forall be | be in at[Place(s.scheme, s.bits[..d])].entries && Passes(be, s.bits, d) &&
               Matches(be.entry.pattern, s) ::
                 be.entry in stored && ids[be.entry.rank] in found
      ensures CompleteTo(found, ids, s, d + 1)
    {
      hide Shape, Contents, Matches, Passes;
      var next := d + 1;
      forall e, n: nat | e in stored && HomeDepth(e, n, next) && Matches(e.pattern, s)
        ensures ids[e.rank] in found
      {
        if n / 8 == d {
          HomeOnPath(e, n, s);
          assert BitEntryOf(e, e.pattern.bits.value, n).entry == e;
        } else {
          assert HomeDepth(e, n, d);
        }
      }
    }

    /** A matching entry that lives deeper keeps the path going. */
    lemma DeeperGoesOn(e: Entry, n: nat, s: Subject, d: nat)
      requires Valid() && e in stored && IsLeadingRun(e.pattern.bits.value.mask, n) && Matches(e.pattern, s)
      requires d < n / 8
      ensures d < |s.bits| && Place(s.scheme, s.bits[..d]) in at && s.bits[d] in at[Place(s.scheme, s.bits[..d])].keys
    {
      HomeOnPath(e, n, s);
      hide Contents, IsLeadingRun, Matches, Passes, BitEntryOf, HomeOf;
      var k := Place(s.scheme, s.bits[..n / 8]);
      PrefixIsNode(k, d + 1);
      assert s.bits[..n / 8][..d + 1] == s.bits[..d] + [s.bits[d]];
      assert Below(Place(s.scheme, s.bits[..d]), s.bits[d]) in at;
    }

    /** Where the path stops, everything is reported. */
    lemma PathEnds(found: seq<ID>, ids: seq<ID>, s: Subject, d: nat)
      requires Valid() && RankedWithin(stored, ids) && CompleteTo(found, ids, s, d + 1)
      requires d < |s.bits| && Place(s.scheme, s.bits[..d]) in at ==>
               s.bits[d] !in at[Place(s.scheme, s.bits[..d])].keys
      ensures forall e | e in stored && Matches(e.pattern, s) :: ids[e.rank] in found
    {
      forall e | e in stored && Matches(e.pattern, s)
        ensures ids[e.rank] in found
      {
        assert BitTested(e.pattern);
        var n := RunOf(e.pattern.bits.value.mask, 0);
        hide Shape, Contents, IsLeadingRun, Matches;
        if d < n / 8 {
          DeeperGoesOn(e, n, s, d);
        }
        assert HomeDepth(e, n, d + 1);
      }
    }

    /** A matching entry has a root for the tag's scheme above it. */
    lemma RootOfMatch(e: Entry, s: Subject)
      requires Valid() && e in stored && Matches(e.pattern, s)
      ensures s.scheme in roots
    {
      assert BitTested(e.pattern);
      var n := RunOf(e.pattern.bits.value.mask, 0);
      HomeOnPath(e, n, s);
      hide Contents, IsLeadingRun, Matches, Passes, BitEntryOf, HomeOf;
      PrefixIsNode(Place(s.scheme, s.bits[..n / 8]), 0);
      assert s.bits[..n / 8][..0] == [];
    }

    /** Following the tag's bytes from its scheme's root reports exactly the matching entries. */
    method Walk(ids: seq<ID>, s: Subject, dst: seq<ID>) returns (r: seq<ID>, ghost found: seq<ID>)
      requires Valid() && RankedWithin(stored, ids) && s.scheme in roots
      ensures r == dst + found && Reports(found, ids, stored, s)
    {
      hide Matches, Separate;
      var node := roots[s.scheme];
      r, found := dst, [];
      assert s.bits[..0] == [];
      assert Place(s.scheme, s.bits[..0]) in at && at[Place(s.scheme, s.bits[..0])] == node;
      assert CompleteTo(found, ids, s, 0);
      var depth := 0;
      while true
        invariant depth <= |s.bits| && Place(s.scheme, s.bits[..depth]) in at &&
                  at[Place(s.scheme, s.bits[..depth])] == node
        invariant r == dst + found && Sound(found, ids, stored, s) && CompleteTo(found, ids, s, depth)
        decreases |s.bits| - depth
      {
        ghost var more, before := [], found;
        assert InStored(node);
        r, more := Confirm(node, ids, s, depth, r);
        found := found + more;
        Completed(before, more, ids, s, depth);
        if depth == |s.bits| {
          PathEnds(found, ids, s, depth);
          return;
        }
        var i, present := BinarySearch(node.keys, s.bits[depth]);
        if !present {
          PathEnds(found, ids, s, depth);
          return;
        }
        assert s.bits[..depth] + [s.bits[depth]] == s.bits[..depth + 1];
        assert Below(Place(s.scheme, s.bits[..depth]), node.keys[i]) in at;
        node := node.children[i];
        depth := depth + 1;
      }
    }

    /** Looking a subject up: its scheme's trie, if there is one. */
    method Lookup(ids: seq<ID>, s: Subject, dst: seq<ID>) returns (r: seq<ID>, ghost found: seq<ID>)
      requires Valid() && RankedWithin(stored, ids)
      ensures r == dst + found && Reports(found, ids, stored, s)
      ensures ReportsAfter(r, dst, ids, stored, s)
    {
      r, found := dst, [];
      if s.scheme in roots {
        r, found := Walk(ids, s, r);
      } else {
        hide Valid, Matches;
        forall e | e in stored
          ensures !Matches(e.pattern, s)
        {
          if Matches(e.pattern, s) {
            RootOfMatch(e, s);
          }
        }
      }
      ReportAppended(r, dst, found, ids, stored, s);
    }
  }

  /** A child appearing under byte b at position i of the node at place k. */
  datatype Growth = Growth(k: Place, b: bv8, i: nat) {
    function Child(): Place {
      Below(k, b)
    }
  }

  lemma BelowInjective(k: Place, b: bv8, l: Place, c: bv8)
    requires Below(k, b) == Below(l, c)
    ensures k == l && b == c
  {
    assert (k.path + [b])[|k.path|] == (l.path + [c])[|l.path|];
    assert k.path == (k.path + [b])[..|k.path|] == (l.path + [c])[..|l.path|] == l.path;
  }
}
