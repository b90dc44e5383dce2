/** The tries over exact component values (internal/filter/index.go). */
module FieldTrie {
  import opened Wrappers
  import opened Identity
  import opened Filter
  import opened Entries

  // ---------------------------------------------------------------- prefix

  /** n exact fields followed only by stars. */
  ghost predicate ExactThenStars(fields: seq<FieldPattern>, n: nat) {
    && n <= |fields|
    && (forall i | 0 <= i < n :: fields[i].FieldExact?)
    && (forall i | n <= i < |fields| :: fields[i].FieldAny?)
  }

  lemma ExactThenStarsUnique(fields: seq<FieldPattern>, m: nat, n: nat)
    requires ExactThenStars(fields, m) && ExactThenStars(fields, n)
    ensures m == n
  {
    assert m < |fields| ==> fields[m].FieldAny?;
    assert n < |fields| ==> fields[n].FieldAny?;
  }

  /** How many leading fields are exact, if the rest are all stars. */
  method ExactPrefix(p: Pattern) returns (exact: nat, ok: bool)
    ensures ok ==> ExactThenStars(p.fields, exact)
    ensures !ok ==> forall n :: !ExactThenStars(p.fields, n)
  {
    exact := 0;
    while exact < |p.fields| && p.fields[exact].FieldExact?
      invariant exact <= |p.fields|
      invariant forall i | 0 <= i < exact :: p.fields[i].FieldExact?
    {
      exact := exact + 1;
    }
    for i := exact to |p.fields|
      invariant forall j | exact <= j < i :: p.fields[j].FieldAny?
    {
      if !p.fields[i].FieldAny? {
        return 0, false;
      }
    }
    ok := true;
  }

  // ---------------------------------------------------------------- places

  /** The root a pattern hangs from: its scheme, or its identity domain. */
  datatype RootKey = ByScheme(scheme: SchemeID) | ByDomain(authority: Authority, keyType: KeyType)

  datatype Domain = Domain(authority: Authority, keyType: KeyType)

  datatype Place = Place(root: RootKey, path: seq<string>)

  function Under(k: Place, text: string): Place {
    Place(k.root, k.path + [text])
  }

  lemma UnderInjective(k: Place, t: string, l: Place, u: string)
    requires Under(k, t) == Under(l, u)
    ensures k == l && t == u
  {
    assert (k.path + [t])[|k.path|] == (l.path + [u])[|l.path|];
    assert k.path == (k.path + [t])[..|k.path|] == (l.path + [u])[..|l.path|] == l.path;
  }

  /** Patterns the field tries may hold: anything without a bit test. */
  predicate FieldTested(p: Pattern) {
    p.level.LevelIdentity? || (p.level.LevelEncoding? && p.bits.None?)
  }

  function RootOf(p: Pattern): RootKey {
    if p.level.LevelIdentity? then ByDomain(p.authority, p.keyType) else ByScheme(p.scheme)
  }

  function Texts(fields: seq<FieldPattern>, n: nat): (r: seq<string>)
    requires n <= |fields| && forall i | 0 <= i < n :: fields[i].FieldExact?
    ensures |r| == n && forall i | 0 <= i < n :: r[i] == fields[i].text
  {
    if n == 0 then [] else Texts(fields, n - 1) + [fields[n - 1].text]
  }

  function HomeOf(p: Pattern, n: nat): Place
    requires n <= |p.fields| && forall i | 0 <= i < n :: p.fields[i].FieldExact?
  {
    Place(RootOf(p), Texts(p.fields, n))
  }

  /** The components a root's patterns constrain. */
  function ComponentsAt(root: RootKey, s: Subject): seq<Component> {
    if root.ByScheme? then s.fields else s.identity.components
  }

  /** The root reaches this subject. */
  predicate Reaches(root: RootKey, s: Subject) {
    root == ByScheme(s.scheme) || root == ByDomain(s.identity.authority, s.identity.keyType)
  }

  function Values(components: seq<Component>, n: nat): (r: seq<string>)
    requires n <= |components|
    ensures |r| == n && forall i | 0 <= i < n :: r[i] == components[i].value
  {
    if n == 0 then [] else Values(components, n - 1) + [components[n - 1].value]
  }

  /** A matching pattern's exact texts are the subject's leading component values. */
  lemma HomeOfMatch(p: Pattern, n: nat, s: Subject)
    requires FieldTested(p) && ExactThenStars(p.fields, n) && Matches(p, s)
    ensures Reaches(RootOf(p), s) && n <= |ComponentsAt(RootOf(p), s)|
    ensures HomeOf(p, n) == Place(RootOf(p), Values(ComponentsAt(RootOf(p), s), n))
  {
    var c := ComponentsAt(RootOf(p), s);
    assert MatchComponents(p, c);
    forall i | 0 <= i < n
      ensures p.fields[i].text == c[i].value
    {
      assert MatchField(p.fields[i], c[i]);
    }
    assert Texts(p.fields, n) == Values(c, n);
  }

  /** The place of the subject's first d values below a root. */
  ghost function PathAt(root: RootKey, s: Subject, d: nat): Place
    requires d <= |ComponentsAt(root, s)|
  {
    Place(root, Values(ComponentsAt(root, s), d))
  }

  /** Entry e has n exact fields, so its home is less than d values deep. */
  ghost predicate HomeDepth(e: Entry, n: nat, d: nat) {
    ExactThenStars(e.pattern.fields, n) && n < d
  }

  // ----------------------------------------------------------------- tries

  /** A node a path of component values leads to; it holds the patterns whose exact fields are that path. */
  class FieldNode {
    var children: map<string, FieldNode>
    var entries: seq<Entry>

    constructor ()
      ensures children == map[] && entries == []
    {
      children, entries := map[], [];
    }
  }

  /** The tries of every scheme and every identity domain. The ghost directory `at` names every node by its place. */
  class FieldTries {
    var idRoots: map<Domain, FieldNode>
    var encRoots: map<SchemeID, FieldNode>
    ghost var at: map<Place, FieldNode>
    ghost var stored: set<Entry>

    constructor ()
      ensures Valid() && stored == {} && at == map[]
    {
      idRoots, encRoots, at, stored := map[], map[], map[], {};
    }

    ghost predicate RootsListed()
      reads this
    {
      && (forall x :: x in encRoots <==> Place(ByScheme(x), []) in at)
      && (forall x | x in encRoots :: encRoots[x] == at[Place(ByScheme(x), [])])
      && (forall x :: x in idRoots <==> Place(ByDomain(x.authority, x.keyType), []) in at)
      && (forall x | x in idRoots :: idRoots[x] == at[Place(ByDomain(x.authority, x.keyType), [])])
    }

    /** A node's children are the directory's nodes one value below it. */
    ghost predicate ChildrenListed()
      reads this, at.Values
    {
      forall k, t | k in at && t in at[k].children :: Under(k, t) in at && at[Under(k, t)] == at[k].children[t]
    }

    /** Every node below a root is a child of the node above it. */
    ghost predicate NoOrphans()
      reads this, at.Values
    {
      forall k, t | Under(k, t) in at :: k in at && t in at[k].children
    }

    ghost predicate Separate()
      reads this
    {
      forall k, l | k in at && l in at && k != l :: at[k] != at[l]
    }

    ghost predicate Shape()
      reads this, at.Values
    {
      RootsListed() && ChildrenListed() && NoOrphans() && Separate()
    }

    /** Every stored entry is at its home, and every entry in a trie is stored. */
    ghost predicate Contents()
      reads this, at.Values
    {
      && (forall k, e | k in at && e in at[k].entries :: e in stored)
      && (forall e | e in stored :: FieldTested(e.pattern) && HasHome(e))
      && (forall e, n | e in stored && ExactThenStars(e.pattern.fields, n) ::
            HomeOf(e.pattern, n) in at && e in at[HomeOf(e.pattern, n)].entries)
    }

    ghost predicate Valid()
      reads this, at.Values
    {
      Shape() && Contents()
    }

    /** Every place on the way to a node is a node. */
    lemma PrefixIsNode(k: Place, d: nat)
      requires Shape() && k in at && d <= |k.path|
      ensures Place(k.root, k.path[..d]) in at
      decreases |k.path| - d
    {
      if d == |k.path| {
        assert k.path[..d] == k.path;
      } else {
        PrefixIsNode(k, d + 1);
        var parent := Place(k.root, k.path[..d]);
        assert k.path[..d + 1] == k.path[..d] + [k.path[d]];
        assert Place(k.root, k.path[..d + 1]) == Under(parent, k.path[d]);
      }
    }

    /** New nodes without entries keep every stored entry at home. */
    twostate lemma ContentsKept()
      requires old(Contents()) && stored == old(stored)
      requires forall k | k in old(at) :: k in at && at[k] == old(at[k]) && at[k].entries == old(at[k].entries)
      requires forall k | k in at && k !in old(at) :: at[k].entries == []
      ensures Contents()
    {
      hide HomeOf, ExactThenStars, HasHome, FieldTested;
    }

    /** The structural half of finding a root: a key without one gets an empty node. */
    method ListRoot(p: Pattern) returns (node: FieldNode)
      requires Shape()
      modifies this`idRoots, this`encRoots, this`at
      ensures Shape()
      ensures Place(RootOf(p), []) in at && at[Place(RootOf(p), [])] == node
      ensures forall l | l in old(at) :: l in at && at[l] == old(at[l])
      ensures forall l | l in at && l !in old(at) :: fresh(at[l]) && at[l].entries == []
    {
      if p.level.LevelIdentity? {
        var key := Domain(p.authority, p.keyType);
        if key in idRoots {
          node := idRoots[key];
          return;
        }
        node := new FieldNode();
        idRoots := idRoots[key := node];
      } else {
        if p.scheme in encRoots {
          node := encRoots[p.scheme];
          return;
        }
        node := new FieldNode();
        encRoots := encRoots[p.scheme := node];
      }
      at := at[Place(RootOf(p), []) := node];
      assert forall k, t :: Under(k, t) != Place(RootOf(p), []);
      assert RootsListed();
      assert ChildrenListed();
      assert NoOrphans();
      assert Separate();
    }

    /** The root for a pattern's level, created when it is missing. */
    method Root(p: Pattern) returns (node: FieldNode)
      requires Valid()
      modifies this`idRoots, this`encRoots, this`at
      ensures Valid()
      ensures Place(RootOf(p), []) in at && at[Place(RootOf(p), [])] == node
      ensures fresh(at.Values - old(at.Values))
    {
      hide Contents;
      node := ListRoot(p);
      hide Shape;
      ContentsKept();
    }

    /** The structural half of a step down: the node's own children and the directory. */
    method Grow(node: FieldNode, ghost k: Place, text: string) returns (next: FieldNode)
      requires Shape() && k in at && at[k] == node
      modifies this`at, node`children
      ensures Shape()
      ensures Under(k, text) in at && at[Under(k, text)] == next
      ensures forall l | l in old(at) :: l in at && at[l] == old(at[l])
      ensures forall l | l in at && l !in old(at) :: fresh(at[l]) && at[l].entries == []
    {
      if text in node.children {
        next := node.children[text];
      } else {
        next := new FieldNode();
        node.children := node.children[text := next];
        at := at[Under(k, text) := next];
        forall l, u | Under(l, u) in at
          ensures l in at && u in at[l].children
        {
          if Under(l, u) == Under(k, text) {
            UnderInjective(l, u, k, text);
          } else {
            assert Under(l, u) in old(at);
          }
        }
      }
    }

    /** One step down, creating the child when it is missing. */
    method Descend(node: FieldNode, ghost k: Place, text: string) returns (next: FieldNode)
      requires Valid() && k in at && at[k] == node
      modifies this`at, node`children
      ensures Valid()
      ensures Under(k, text) in at && at[Under(k, text)] == next
      ensures fresh(at.Values - old(at.Values))
    {
      hide Contents;
      next := Grow(node, k, text);
      hide Shape;
      ContentsKept();
    }

    /** The node the exact texts name, created with everything above it where missing. */
    method Home(p: Pattern, exact: nat) returns (node: FieldNode)
      requires Valid() && exact <= |p.fields| && forall i | 0 <= i < exact :: p.fields[i].FieldExact?
      modifies this, at.Values
      ensures Valid() && stored == old(stored)
      ensures HomeOf(p, exact) in at && at[HomeOf(p, exact)] == node
      ensures fresh(at.Values - old(at.Values))
    {
      hide Shape, Contents;
      node := Root(p);
      ghost var k := Place(RootOf(p), []);
      for i := 0 to exact
        invariant Valid() && stored == old(stored)
        invariant k == HomeOf(p, i) && k in at && at[k] == node
        invariant fresh(at.Values - old(at.Values))
      {
        var text := p.fields[i].text;
        node := Descend(node, k, text);
        k := Under(k, text);
      }
    }

    /** Appending an entry at its home. */
    method Append(node: FieldNode, e: Entry, n: nat)
      requires Valid() && FieldTested(e.pattern) && ExactThenStars(e.pattern.fields, n)
      requires HomeOf(e.pattern, n) in at && at[HomeOf(e.pattern, n)] == node
      modifies this`stored, node`entries
      ensures Valid() && stored == old(stored) + {e}
    {
      node.entries := node.entries + [e];
      stored := stored + {e};
      forall m | ExactThenStars(e.pattern.fields, m)
        ensures m == n
      {
        ExactThenStarsUnique(e.pattern.fields, m, n);
      }
      assert HasHome(e);
      hide HomeOf, HasHome, FieldTested;
    }

    /** Adding a pattern of exact fields followed by stars. */
    method Add(e: Entry, exact: nat)
      requires Valid() && FieldTested(e.pattern) && ExactThenStars(e.pattern.fields, exact)
      modifies this, at.Values
      ensures Valid() && stored == old(stored) + {e}
      ensures fresh(at.Values - old(at.Values))
    {
      hide Shape, Contents;
      var node := Home(e.pattern, exact);
      Append(node, e, exact);
    }

    // ----------------------------------------------------------------- walk

    /** The stored entries hanging from one root. */
    ghost function Hanging(root: RootKey): (r: set<Entry>)
      reads this
      ensures r <= stored
    {
      set e | e in stored && RootOf(e.pattern) == root
    }

    /** Every matching entry of the root whose home is less than d values deep is reported. */
    ghost predicate CompleteTo(found: seq<ID>, ids: seq<ID>, root: RootKey, s: Subject, d: nat)
      reads this
      requires RankedWithin(stored, ids)
    {
      forall e, n | e in Hanging(root) && HomeDepth(e, n, d) && Matches(e.pattern, s) :: ids[e.rank] in found
    }

    /** A matching entry lives on the subject's own path. */
    lemma HomeOnPath(e: Entry, n: nat, s: Subject)
      requires Valid() && e in stored && ExactThenStars(e.pattern.fields, n) && Matches(e.pattern, s)
      ensures Reaches(RootOf(e.pattern), s) && n <= |ComponentsAt(RootOf(e.pattern), s)|
      ensures HomeOf(e.pattern, n) == Place(RootOf(e.pattern), Values(ComponentsAt(RootOf(e.pattern), s), n))
      ensures HomeOf(e.pattern, n) in at && e in at[HomeOf(e.pattern, n)].entries
    {
      hide Shape, HomeOf;
      HomeOfMatch(e.pattern, n, s);
    }

    /** A matching entry hangs from a root that reaches the subject. */
    lemma RootOfMatch(e: Entry, s: Subject)
      requires Valid() && e in stored && Matches(e.pattern, s)
      ensures Reaches(RootOf(e.pattern), s) && Place(RootOf(e.pattern), []) in at
      ensures e in Hanging(RootOf(e.pattern))
    {
      assert HasHome(e);
      var n: nat :| ExactThenStars(e.pattern.fields, n);
      HomeOnPath(e, n, s);
      hide Contents, ExactThenStars, Matches, HomeOf;
      PrefixIsNode(HomeOf(e.pattern, n), 0);
      assert HomeOf(e.pattern, n).path[..0] == [];
    }

    /** A matching entry that lives deeper keeps the path going. */
    lemma DeeperGoesOn(e: Entry, n: nat, s: Subject, d: nat)
      requires Valid() && e in stored && ExactThenStars(e.pattern.fields, n) && Matches(e.pattern, s) && d < n
      ensures n <= |ComponentsAt(RootOf(e.pattern), s)|
      ensures PathAt(RootOf(e.pattern), s, d) in at
      ensures ComponentsAt(RootOf(e.pattern), s)[d].value in at[PathAt(RootOf(e.pattern), s, d)].children
    {
      HomeOnPath(e, n, s);
      hide Contents, ExactThenStars, Matches, HomeOf;
      var c := ComponentsAt(RootOf(e.pattern), s);
      var k := HomeOf(e.pattern, n);
      PrefixIsNode(k, d + 1);
      assert Values(c, n)[..d + 1] == Values(c, d) + [c[d].value];
      assert Under(PathAt(RootOf(e.pattern), s, d), c[d].value) in at;
    }

    /** found lists the node's matching entries and nothing else. */
    ghost predicate Confirmed(found: seq<ID>, node: FieldNode, ids: seq<ID>, s: Subject)
      reads node
      requires forall e | e in node.entries :: e.rank < |ids|
    {
      && (forall x | x in found :: exists e :: e in node.entries && Matches(e.pattern, s) && ids[e.rank] == x)
      && (forall e | e in node.entries && Matches(e.pattern, s) :: ids[e.rank] in found)
    }

    /** The entries of one node, confirmed one by one with the match rule. */
    method Confirm(node: FieldNode, ids: seq<ID>, s: Subject, dst: seq<ID>) returns (r: seq<ID>, ghost found: seq<ID>)
      requires forall e | e in node.entries :: e.rank < |ids|
      ensures r == dst + found && Confirmed(found, node, ids, s)
    {
      hide Matches;
      r, found := dst, [];
      for i := 0 to |node.entries|
        invariant r == dst + found
        invariant forall x | x in found :: exists e :: e in node.entries && Matches(e.pattern, s) && ids[e.rank] == x
        invariant forall j | 0 <= j < i && Matches(node.entries[j].pattern, s) :: ids[node.entries[j].rank] in found
      {
        var e := node.entries[i];
        if Matches(e.pattern, s) {
          assert e in node.entries;
          r := r + [ids[e.rank]];
          found := found + [ids[e.rank]];
        }
      }
    }

    ghost predicate InStored(node: FieldNode)
      reads this, node
    {
      forall e | e in node.entries :: e in stored
    }

    /** What one node adds keeps the report sound and completes its depth. */
    lemma Completed(before: seq<ID>, more: seq<ID>, ids: seq<ID>, root: RootKey, s: Subject, d: nat)
      requires Valid() && RankedWithin(stored, ids) && d <= |ComponentsAt(root, s)| && PathAt(root, s, d) in at
      requires Sound(before, ids, stored, s) && CompleteTo(before, ids, root, s, d)
      requires InStored(at[PathAt(root, s, d)]) && Confirmed(more, at[PathAt(root, s, d)], ids, s)
      ensures Sound(before + more, ids, stored, s) && CompleteTo(before + more, ids, root, s, d + 1)
    {
      hide Shape, Contents, Matches, HomeOf;
      var found := before + more;
      var next := d + 1;
      forall e, n: nat | e in Hanging(root) && HomeDepth(e, n, next) && Matches(e.pattern, s)
        ensures ids[e.rank] in found
      {
        if n == d {
          HomeOnPath(e, n, s);
        } else {
          assert HomeDepth(e, n, d);
        }
      }
    }

    lemma NothingYet(ids: seq<ID>, root: RootKey, s: Subject)
      requires RankedWithin(stored, ids)
      ensures Sound([], ids, stored, s) && CompleteTo([], ids, root, s, 0)
    {
    }

    /** Where the path stops, everything hanging from the root is reported. */
    lemma PathEnds(found: seq<ID>, ids: seq<ID>, root: RootKey, s: Subject, d: nat)
      requires Valid() && RankedWithin(stored, ids) && CompleteTo(found, ids, root, s, d + 1)
      requires d < |ComponentsAt(root, s)| && PathAt(root, s, d) in at ==>
                 ComponentsAt(root, s)[d].value !in at[PathAt(root, s, d)].children
      ensures forall e | e in Hanging(root) && Matches(e.pattern, s) :: ids[e.rank] in found
    {
      forall e | e in Hanging(root) && Matches(e.pattern, s)
        ensures ids[e.rank] in found
      {
        assert HasHome(e);
        var n: nat :| ExactThenStars(e.pattern.fields, n);
        hide Shape, Contents, ExactThenStars, Matches;
        if d < n {
          DeeperGoesOn(e, n, s, d);
        }
        assert HomeDepth(e, n, d + 1);
      }
    }

    /** Following the subject's component values from a root reports exactly the matching entries that hang from it. */
    method Walk(root: FieldNode, ghost key: RootKey, fields: Option<seq<Component>>, ids: seq<ID>, s: Subject,
                dst: seq<ID>)
      returns (r: seq<ID>, ghost found: seq<ID>)
      requires Valid() && RankedWithin(stored, ids) && Place(key, []) in at && at[Place(key, [])] == root
      requires ComponentsAt(key, s) == if fields.Some? then fields.value else s.identity.components
      ensures r == dst + found && Sound(found, ids, stored, s)
      ensures forall e | e in Hanging(key) && Matches(e.pattern, s) :: ids[e.rank] in found
    {
      hide Matches, Sound, CompleteTo, NoOrphans, Separate, RootsListed;
      var node := root;
      r, found := dst, [];
      assert Sound(found, ids, stored, s) && CompleteTo(found, ids, key, s, 0) by {
        NothingYet(ids, key, s);
      }
      var n := if fields.Some? then |fields.value| else |s.identity.components|;
      var depth := 0;
      while true
        invariant depth <= n && PathAt(key, s, depth) in at && at[PathAt(key, s, depth)] == node
        invariant r == dst + found && Sound(found, ids, stored, s) && CompleteTo(found, ids, key, s, depth)
        decreases n - depth
      {
        ghost var more, before := [], found;
        assert InStored(node);
        r, more := Confirm(node, ids, s, r);
        found := found + more;
        Completed(before, more, ids, key, s, depth);
        if depth == n || node.children == map[] {
          PathEnds(found, ids, key, s, depth);
          return;
        }
        var c := if fields.Some? then fields.value[depth] else s.identity.components[depth];
        if c.value !in node.children {
          PathEnds(found, ids, key, s, depth);
          return;
        }
        assert PathAt(key, s, depth + 1) == Under(PathAt(key, s, depth), c.value);
        node := node.children[c.value];
        depth := depth + 1;
      }
    }

    /** Looking a subject up: the trie of its scheme and the trie of its identity's domain, where they exist. */
    method Lookup(ids: seq<ID>, s: Subject, dst: seq<ID>) returns (r: seq<ID>, ghost found: seq<ID>)
      requires Valid() && RankedWithin(stored, ids)
      ensures r == dst + found && Reports(found, ids, stored, s)
      ensures ReportsAfter(r, dst, ids, stored, s)
    {
      r, found := dst, [];
      ghost var a: seq<ID>, b: seq<ID> := [], [];
      var domain := Domain(s.identity.authority, s.identity.keyType);
      ghost var schemeKey, domainKey := ByScheme(s.scheme), ByDomain(domain.authority, domain.keyType);
      if s.scheme in encRoots {
        r, a := Walk(encRoots[s.scheme], schemeKey, Some(s.fields), ids, s, r);
      }
      if domain in idRoots {
        r, b := Walk(idRoots[domain], domainKey, None, ids, s, r);
      }
      found := a + b;
      hide Shape, Contents, Matches;
      assert Sound(found, ids, stored, s);
      forall e | e in stored && Matches(e.pattern, s)
        ensures ids[e.rank] in found
      {
        RootOfMatch(e, s);
      }
      ReportAppended(r, dst, found, ids, stored, s);
    }
  }

  ghost predicate HasHome(e: Entry) {
    exists n :: ExactThenStars(e.pattern.fields, n)
  }
}
