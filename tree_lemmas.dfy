/**
 * Properties of the file-tree model: what the queries mean, what the
 * domain-key cascade and the child operations achieve, and which invariants
 * the constructors and the child operations keep.
 */
module TreeLemmas {
  import opened Names
  import opened TreeModel

  // ---------------------------------------------------------------------
  // Roots and paths

  /** isRoot holds exactly when the node is its own only ancestor-or-self. */
  lemma RootHasNoProperAncestor(a: Arena, n: NodeId)
    requires Valid(a) && n in a.nodes
    ensures IsRoot(a, n) <==> forall x :: x in a.nodes && IsAncestorOrSelf(a, x, n) ==> x == n
  {
    assert LinksOrdered(a, n);
    if !IsRoot(a, n) {
      var p := a.nodes[n].parent.value;
      assert IsAncestorOrSelf(a, p, p);
      assert p in a.nodes && IsAncestorOrSelf(a, p, n) && p != n;
    }
  }

  /** A node is a root exactly when its full path is empty. */
  lemma RootHasEmptyPath(a: Arena, n: NodeId)
    requires Valid(a) && n in a.nodes
    ensures IsRoot(a, n) <==> FullPath(a, n) == []
  {
  }

  /** A root is never shared and is its own root. */
  lemma RootIsNotShared(a: Arena, n: NodeId)
    requires Valid(a) && n in a.nodes
    ensures IsRoot(a, n) ==> Shared(a, n) == Ok(false) && Root(a, n) == n
  {
  }

  /** The path of an ancestor is a prefix of the path of each of its descendants. */
  lemma {:induction false} FullPathExtendsAncestors(a: Arena, x: NodeId, n: NodeId)
    requires Valid(a) && n in a.nodes && IsAncestorOrSelf(a, x, n)
    ensures x in a.nodes && FullPath(a, x) <= FullPath(a, n)
    decreases n
  {
    AncestorIsLive(a, x, n);
    if x != n {
      var p := a.nodes[n].parent.value;
      FullPathExtendsAncestors(a, x, p);
    }
  }

  /**
   * Every non-root node is listed by its parent, and siblings' names differ
   * up to case. The other direction, listed children naming their folder,
   * is ParentLinksAgree and is kept separately.
   */
  ghost predicate WellBuilt(a: Arena)
  {
    && Valid(a)
    && ChildLinksAgree(a)
    && forall n :: n in a.nodes ==> DistinctNames(a, a.nodes[n].children)
  }

  /** In a well-built tree two nodes under one root with the same full path are the same node. */
  lemma {:induction false} PathsIdentifyNodes(a: Arena, x: NodeId, y: NodeId)
    requires WellBuilt(a) && x in a.nodes && y in a.nodes
    requires Root(a, x) == Root(a, y) && FullPath(a, x) == FullPath(a, y)
    ensures x == y
    decreases x + y
  {
    RootHasEmptyPath(a, x);
    RootHasEmptyPath(a, y);
    if IsRoot(a, x) {
      assert IsRoot(a, y);
    } else {
      var px, py := a.nodes[x].parent.value, a.nodes[y].parent.value;
      var path := FullPath(a, x);
      assert FullPath(a, px) == path[..|path| - 1] == FullPath(a, py);
      assert a.nodes[x].name == path[|path| - 1] == a.nodes[y].name;
      PathsIdentifyNodes(a, px, py);
      assert x in a.nodes[px].children && y in a.nodes[px].children;
      EqualsIgnoreCaseReflexive(a.nodes[x].name);
    }
  }

  /** Arenas that agree on every field read upwards give every node the same answers. */
  lemma {:induction false} UpwardFrame(a: Arena, b: Arena, n: NodeId)
    requires Valid(a) && Valid(b) && SameUpward(a, b) && n in a.nodes
    ensures n in b.nodes && Root(b, n) == Root(a, n)
    ensures Shared(b, n) == Shared(a, n) && CanWrite(b, n) == CanWrite(a, n)
    ensures FullPath(b, n) == FullPath(a, n)
    decreases n
  {
    if a.nodes[n].parent.Some? {
      UpwardFrame(a, b, a.nodes[n].parent.value);
    }
  }

  // ---------------------------------------------------------------------
  // Sharing

  /** A folder reached through folders from a child of `n` is reached from `n`, and back. */
  lemma FolderReachStep(a: Arena, n: NodeId, m: NodeId)
    requires Valid(a) && n in a.nodes && a.nodes[n].isFolder
    ensures FolderReach(a, m, n) <==> m == n || exists c :: c in a.nodes[n].children && FolderReach(a, m, c)
  {
  }

  /**
   * hasShared, when it returns, reports whether some folder reached from the
   * node through folders only is shared.
   */
  lemma {:induction false} SubtreeSharedMeaning(a: Arena, n: NodeId)
    requires Valid(a) && n in a.nodes && SubtreeShared(a, n).Ok?
    ensures SubtreeShared(a, n).value <==>
              exists m :: m in a.nodes && FolderReach(a, m, n) && Shared(a, m) == Ok(true)
    decreases a.next - n
  {
    var node := a.nodes[n];
    if !node.isFolder {
      assert forall m :: !FolderReach(a, m, n);
    } else if Shared(a, n) == Ok(true) {
      assert FolderReach(a, n, n);
    } else {
      assert Shared(a, n) == Ok(false);
      var kids := node.children;
      assert forall c :: c in kids ==> SubtreeShared(a, c).Ok?;
      assert SubtreeShared(a, n).value == exists c :: c in kids && SubtreeShared(a, c) == Ok(true);
      forall c | c in kids
        ensures SubtreeShared(a, c) == Ok(true) <==>
                  exists m :: m in a.nodes && FolderReach(a, m, c) && Shared(a, m) == Ok(true)
      {
        assert LinksOrdered(a, n);
        SubtreeSharedMeaning(a, c);
      }
      if SubtreeShared(a, n).value {
        var c :| c in kids && SubtreeShared(a, c) == Ok(true);
        var m :| m in a.nodes && FolderReach(a, m, c) && Shared(a, m) == Ok(true);
        FolderReachStep(a, n, m);
      }
      if exists m :: m in a.nodes && FolderReach(a, m, n) && Shared(a, m) == Ok(true) {
        var m :| m in a.nodes && FolderReach(a, m, n) && Shared(a, m) == Ok(true);
        FolderReachStep(a, n, m);
        var c :| c in kids && FolderReach(a, m, c);
        assert SubtreeShared(a, c) == Ok(true);
      }
    }
  }

  /** Every node has domain keys. */
  ghost predicate AllKeyed(a: Arena)
  {
    forall n :: n in a.nodes ==> a.nodes[n].domainKeys.Some?
  }

  /** When every node has domain keys, canWrite is true and isShared, hasShared never throw. */
  lemma {:induction false} AllKeyedQueriesSucceed(a: Arena, n: NodeId)
    requires Valid(a) && AllKeyed(a) && n in a.nodes
    ensures CanWrite(a, n) == Ok(true) && Shared(a, n).Ok? && SubtreeShared(a, n).Ok?
    decreases a.next - n
  {
    if !a.nodes[n].isFolder && a.nodes[n].parent.Some? {
      var p := a.nodes[n].parent.value;
      AllKeyedSharedSucceeds(a, p);
    }
    forall c | c in a.nodes[n].children ensures SubtreeShared(a, c).Ok? {
      assert c in a.nodes && n < c < a.next;
      AllKeyedQueriesSucceed(a, c);
    }
  }

  lemma {:induction false} AllKeyedSharedSucceeds(a: Arena, n: NodeId)
    requires Valid(a) && AllKeyed(a) && n in a.nodes
    ensures Shared(a, n).Ok?
    decreases n
  {
    if !a.nodes[n].isFolder && a.nodes[n].parent.Some? {
      AllKeyedSharedSucceeds(a, a.nodes[n].parent.value);
    }
  }

  // ---------------------------------------------------------------------
  // The domain-key cascade

  lemma {:induction false} SubtreeTransitive(a: Arena, x: NodeId, m: NodeId, n: NodeId)
    requires Valid(a) && n in a.nodes && m in a.nodes
    requires InSubtree(a, x, m) && InSubtree(a, m, n)
    ensures InSubtree(a, x, n)
    decreases a.next - n
  {
    if m != n {
      var c :| c in a.nodes[n].children && InSubtree(a, m, c);
      assert c in a.nodes && n < c < a.next;
      SubtreeTransitive(a, x, m, c);
    }
  }

  /** The cascade changes domain keys only: parents, children and identities stay. */
  lemma CascadeKeepsShape(a: Arena, n: NodeId, d: Option<KeyPair>)
    requires Valid(a) && n in a.nodes
    ensures SameShape(a, WithDomainKeys(a, n, d)) && Valid(WithDomainKeys(a, n, d))
    ensures forall m :: m in a.nodes ==>
              WithDomainKeys(a, n, d).nodes[m] == a.nodes[m].(domainKeys := WithDomainKeys(a, n, d).nodes[m].domainKeys)
  {
    ValidShape(a, WithDomainKeys(a, n, d));
  }

  /**
   * A cascade from `n` overwrites whatever an earlier cascade from a node
   * below `n` set: the inner share is erased, and a repeated cascade changes
   * nothing.
   */
  lemma CascadeOverridesInner(a: Arena, n: NodeId, m: NodeId, d1: Option<KeyPair>, d2: Option<KeyPair>)
    requires Valid(a) && n in a.nodes && InSubtree(a, m, n)
    ensures m in a.nodes && Valid(WithDomainKeys(a, m, d1))
    ensures WithDomainKeys(WithDomainKeys(a, m, d1), n, d2) == WithDomainKeys(a, n, d2)
  {
    SubtreeIsLive(a, m, n);
    var b := WithDomainKeys(a, m, d1);
    CascadeKeepsShape(a, m, d1);
    var lhs, rhs := WithDomainKeys(b, n, d2), WithDomainKeys(a, n, d2);
    forall x | x in a.nodes ensures lhs.nodes[x] == rhs.nodes[x] {
      CascadeOverridesAt(a, n, m, d1, d2, x);
    }
    assert lhs.nodes == rhs.nodes;
  }

  /** CascadeOverridesInner at one node `x`. */
  lemma CascadeOverridesAt(a: Arena, n: NodeId, m: NodeId, d1: Option<KeyPair>, d2: Option<KeyPair>, x: NodeId)
    requires Valid(a) && n in a.nodes && m in a.nodes && InSubtree(a, m, n) && x in a.nodes
    ensures Valid(WithDomainKeys(a, m, d1))
    ensures WithDomainKeys(WithDomainKeys(a, m, d1), n, d2).nodes[x] == WithDomainKeys(a, n, d2).nodes[x]
  {
    var b := WithDomainKeys(a, m, d1);
    CascadeKeepsShape(a, m, d1);
    InSubtreeShape(a, b, x, n);
    if InSubtree(a, x, m) {
      SubtreeTransitive(a, x, m, n);
    }
  }

  lemma {:induction false} CascadeSharedAt(a: Arena, n: NodeId, d: Option<KeyPair>, m: NodeId)
    requires Valid(a) && ParentLinksAgree(a) && n in a.nodes && a.nodes[n].isFolder && !IsRoot(a, n)
    requires d.Some? && d != a.nodes[Root(a, n)].domainKeys
    requires InSubtree(a, m, n)
    ensures m in a.nodes && Valid(WithDomainKeys(a, n, d))
    ensures Shared(WithDomainKeys(a, n, d), m) == Ok(true)
    decreases m
  {
    var b := WithDomainKeys(a, n, d);
    CascadeKeepsShape(a, n, d);
    SubtreeIsLive(a, m, n);
    SubtreeHasAncestor(a, m, n);
    RootShape(a, b, m);
    AncestorSameRoot(a, n, m);
    var r := Root(a, n);
    assert r < n by {
      assert Root(a, n) == Root(a, a.nodes[n].parent.value);
    }
    assert !InSubtree(a, r, n) by {
      if InSubtree(a, r, n) {
        SubtreeIsLive(a, r, n);
      }
    }
    assert b.nodes[r].domainKeys == a.nodes[r].domainKeys;
    if m != n {
      assert a.nodes[m].parent.Some?;
      if !a.nodes[m].isFolder {
        var p := SubtreeLastStep(a, m, n);
        assert a.nodes[m].parent == Some(p);
        CascadeSharedAt(a, n, d, p);
      }
    }
  }

  /**
   * setDomainKeys on a non-root folder with keys other than its root's makes
   * every node of its subtree shared (files through their parents), when
   * children name their parents.
   */
  lemma CascadeSharesSubtree(a: Arena, n: NodeId, d: Option<KeyPair>)
    requires Valid(a) && ParentLinksAgree(a) && n in a.nodes && a.nodes[n].isFolder && !IsRoot(a, n)
    requires d.Some? && d != a.nodes[Root(a, n)].domainKeys
    ensures Valid(WithDomainKeys(a, n, d))
    ensures forall m :: m in a.nodes && InSubtree(a, m, n) ==> Shared(WithDomainKeys(a, n, d), m) == Ok(true)
  {
    CascadeKeepsShape(a, n, d);
    forall m | m in a.nodes && InSubtree(a, m, n) ensures Shared(WithDomainKeys(a, n, d), m) == Ok(true) {
      CascadeSharedAt(a, n, d, m);
    }
  }

  // ---------------------------------------------------------------------
  // Child management

  /** addChild of a separator-free name keeps sibling names distinct. */
  lemma WithChildKeepsNamesDistinct(a: Arena, n: NodeId, c: NodeId, sep: char)
    requires n in a.nodes && c in a.nodes
    requires DistinctNames(a, a.nodes[n].children) && sep !in a.nodes[c].name
    ensures DistinctNames(WithChild(a, n, c, sep), WithChild(a, n, c, sep).nodes[n].children)
  {
    var kids := a.nodes[n].children;
    var b := WithChild(a, n, c, sep);
    if !MatchIn(a, kids, a.nodes[c].name, sep) {
      forall x | x in kids && x in a.nodes && x != c
        ensures !EqualsIgnoreCase(a.nodes[x].name, a.nodes[c].name)
        ensures !EqualsIgnoreCase(a.nodes[c].name, a.nodes[x].name)
      {
        assert !NameMatches(a, x, a.nodes[c].name, sep);
        EqualsIgnoreCaseSymmetric(a.nodes[x].name, a.nodes[c].name);
      }
      assert forall m :: m in a.nodes ==> b.nodes[m].name == a.nodes[m].name;
    }
  }

  /** On a name collision addChild changes nothing and the child found by that name is still the earlier one. */
  lemma CollisionKeepsEarlierChild(a: Arena, n: NodeId, c: NodeId, sep: char, x: NodeId)
    requires n in a.nodes && c in a.nodes && DistinctNames(a, a.nodes[n].children)
    requires x in a.nodes[n].children && x in a.nodes && NameMatches(a, x, a.nodes[c].name, sep)
    ensures WithChild(a, n, c, sep) == a
    ensures forall y :: y in a.nodes[n].children && y in a.nodes && NameMatches(a, y, a.nodes[c].name, sep) ==> y == x
  {
    forall y | y in a.nodes[n].children && y in a.nodes && NameMatches(a, y, a.nodes[c].name, sep) ensures y == x {
      MatchIsUnique(a, a.nodes[n].children, a.nodes[c].name, sep, x, y);
    }
  }

  /** removeChild never adds a child and removes at most one. */
  lemma RemovalShrinks(a: Arena, n: NodeId, c: NodeId, sep: char, kids': set<NodeId>)
    requires n in a.nodes && c in a.nodes && IsRemoval(a, n, c, sep, kids')
    ensures kids' <= a.nodes[n].children
    ensures kids' == a.nodes[n].children || exists x :: x in a.nodes[n].children && kids' == a.nodes[n].children - {x}
    ensures |a.nodes[n].children| - 1 <= |kids'|
  {
  }

  /**
   * After removeChild of a node with a separator-free name no child of the
   * folder matches that name any more, when sibling names were distinct;
   * and they stay distinct.
   */
  lemma RemovalClearsName(a: Arena, n: NodeId, c: NodeId, sep: char, kids': set<NodeId>)
    requires n in a.nodes && c in a.nodes && IsRemoval(a, n, c, sep, kids')
    requires DistinctNames(a, a.nodes[n].children) && sep !in a.nodes[c].name
    ensures !MatchIn(WithChildren(a, n, kids'), kids', a.nodes[c].name, sep)
    ensures DistinctNames(WithChildren(a, n, kids'), kids')
  {
    var kids := a.nodes[n].children;
    var q := a.nodes[c].name;
    var b := WithChildren(a, n, kids');
    RemovalShrinks(a, n, c, sep, kids');
    if c in kids {
      EqualsIgnoreCaseReflexive(q);
      forall y | y in kids' && y in a.nodes ensures !NameMatches(a, y, q, sep) {
        if NameMatches(a, y, q, sep) {
          MatchIsUnique(a, kids, q, sep, y, c);
        }
      }
    } else if MatchIn(a, kids, q, sep) {
      var m :| m in kids && m in a.nodes && NameMatches(a, m, q, sep) && kids' == kids - {m};
      forall y | y in kids' && y in a.nodes ensures !NameMatches(a, y, q, sep) {
        if NameMatches(a, y, q, sep) {
          MatchIsUnique(a, kids, q, sep, y, m);
        }
      }
    }
    forall y | y in kids' && y in b.nodes ensures !NameMatches(b, y, q, sep) {
      assert y in a.nodes && b.nodes[y].name == a.nodes[y].name;
    }
    forall x, y | x in kids' && y in kids' && x in b.nodes && y in b.nodes && x != y
      ensures !EqualsIgnoreCase(b.nodes[x].name, b.nodes[y].name)
    {
      assert x in a.nodes && b.nodes[x].name == a.nodes[x].name;
      assert y in a.nodes && b.nodes[y].name == a.nodes[y].name;
    }
  }

  // ---------------------------------------------------------------------
  // Construction

  /**
   * The child constructor: the new node gets the next identity, the parent
   * reference and the parent's domain keys, and joins the parent's children
   * exactly when no child matches its name; no other node changes.
   */
  lemma AllocChildEffect(a: Arena, p: NodeId, kp: KeyPair, name: string, isFolder: bool,
                         md5: Option<seq<bv8>>, sep: char)
    requires Valid(a) && p in a.nodes
    ensures a.next !in a.nodes
    ensures var b := AllocChild(a, p, kp, name, isFolder, md5, sep);
      && Valid(b) && b.next == a.next + 1
      && b.nodes.Keys == a.nodes.Keys + {a.next}
      && b.nodes[a.next] == Node(kp, isFolder, Some(p), name, md5, a.nodes[p].domainKeys, {})
      && b.nodes[p] == a.nodes[p].(children := b.nodes[p].children)
      && b.nodes[p].children ==
           (if MatchIn(a, a.nodes[p].children, name, sep) then a.nodes[p].children
            else a.nodes[p].children + {a.next})
      && (forall m :: m in a.nodes && m != p ==> b.nodes[m] == a.nodes[m])
      && SameUpward(a, b)
  {
    var id := a.next;
    var node := NewChildNode(a, p, kp, name, isFolder, md5);
    ValidAfterAlloc(a, node);
    var mid := Arena(a.nodes[id := node], id + 1);
    var kids := a.nodes[p].children;
    assert LinksOrdered(a, p);
    assert MatchIn(mid, kids, name, sep) == MatchIn(a, kids, name, sep) by {
      forall x | x in kids ensures x in a.nodes && mid.nodes[x] == a.nodes[x] {
        assert x in a.nodes && x < id;
      }
    }
    assert mid.nodes[id].name == name;
    var b := AllocChild(a, p, kp, name, isFolder, md5, sep);
    assert b == WithChild(mid, p, id, sep);
    WithChildEffect(mid, p, id, sep);
    SameUpwardTransitive(a, mid, b);
    assert p < id && mid.nodes[p] == a.nodes[p];
    assert b.nodes[id] == node;
    forall m | m in a.nodes && m != p ensures b.nodes[m] == a.nodes[m] {
      assert m != id && mid.nodes[m] == a.nodes[m];
    }
  }

  /**
   * A new child can write exactly when its parent can, its path is the
   * parent's plus its name, and every old node keeps the fields that
   * isShared, canWrite and getFullPath read (see UpwardFrame).
   */
  lemma AllocChildQueries(a: Arena, p: NodeId, kp: KeyPair, name: string, isFolder: bool,
                          md5: Option<seq<bv8>>, sep: char)
    requires Valid(a) && p in a.nodes
    ensures var b := AllocChild(a, p, kp, name, isFolder, md5, sep);
      && Valid(b) && SameUpward(a, b)
      && CanWrite(b, a.next) == CanWrite(a, p)
      && FullPath(b, a.next) == FullPath(a, p) + [name]
  {
    AllocChildEffect(a, p, kp, name, isFolder, md5, sep);
    var b := AllocChild(a, p, kp, name, isFolder, md5, sep);
    var id := a.next;
    UpwardFrame(a, b, p);
    assert b.nodes[id].parent == Some(p) && b.nodes[id].domainKeys == a.nodes[p].domainKeys;
    assert CanWrite(b, id) == CanWrite(a, p) by {
      if a.nodes[p].domainKeys.None? {
        assert CanWrite(b, id) == CanWrite(b, p);
      }
    }
    assert FullPath(b, id) == FullPath(b, p) + [name];
  }

  /** A new child inherits keys, so a tree where every node has domain keys keeps that property. */
  lemma AllocChildKeepsKeyed(a: Arena, p: NodeId, kp: KeyPair, name: string, isFolder: bool,
                             md5: Option<seq<bv8>>, sep: char)
    requires Valid(a) && p in a.nodes && AllKeyed(a)
    ensures AllKeyed(AllocChild(a, p, kp, name, isFolder, md5, sep))
  {
    AllocChildEffect(a, p, kp, name, isFolder, md5, sep);
    var b := AllocChild(a, p, kp, name, isFolder, md5, sep);
    forall m | m in b.nodes ensures b.nodes[m].domainKeys.Some? {
      if m != a.next {
        assert m in a.nodes;
      }
    }
  }

  /** The constructor keeps children naming their parents, and, on no collision, the listing of every child. */
  lemma AllocChildKeepsLinks(a: Arena, p: NodeId, kp: KeyPair, name: string, isFolder: bool,
                             md5: Option<seq<bv8>>, sep: char)
    requires Valid(a) && p in a.nodes
    ensures var b := AllocChild(a, p, kp, name, isFolder, md5, sep);
      && (ParentLinksAgree(a) ==> ParentLinksAgree(b))
      && (ChildLinksAgree(a) && !MatchIn(a, a.nodes[p].children, name, sep) ==> ChildLinksAgree(b))
  {
    AllocChildEffect(a, p, kp, name, isFolder, md5, sep);
  }

  /**
   * A constructor call with a separator-free name keeps a tree well built
   * when no sibling matches the name.
   */
  lemma AllocChildKeepsWellBuilt(a: Arena, p: NodeId, kp: KeyPair, name: string, isFolder: bool,
                                 md5: Option<seq<bv8>>, sep: char)
    requires WellBuilt(a) && p in a.nodes && sep !in name && !MatchIn(a, a.nodes[p].children, name, sep)
    ensures WellBuilt(AllocChild(a, p, kp, name, isFolder, md5, sep))
  {
    AllocChildEffect(a, p, kp, name, isFolder, md5, sep);
    AllocChildKeepsLinks(a, p, kp, name, isFolder, md5, sep);
    var id := a.next;
    var mid := Arena(a.nodes[id := NewChildNode(a, p, kp, name, isFolder, md5)], id + 1);
    var b := AllocChild(a, p, kp, name, isFolder, md5, sep);
    assert DistinctNames(mid, a.nodes[p].children) by {
      forall x | x in a.nodes[p].children ensures x in a.nodes && mid.nodes[x] == a.nodes[x] {
        assert x in a.nodes && x < id;
      }
    }
    WithChildKeepsNamesDistinct(mid, p, id, sep);
    forall n | n in b.nodes ensures DistinctNames(b, b.nodes[n].children) {
      if n != p && n != id {
        assert n in a.nodes && b.nodes[n] == a.nodes[n] && LinksOrdered(a, n);
        forall x | x in a.nodes[n].children ensures x in a.nodes && b.nodes[x].name == a.nodes[x].name {
          assert x in a.nodes;
        }
      }
    }
  }

  /**
   * A constructor call with exactly the separator-free name of an existing
   * child that names the parent leaves the new node outside its parent's
   * children, with the same full path as that child.
   */
  lemma CollidingChildSharesPath(a: Arena, p: NodeId, x: NodeId, kp: KeyPair, isFolder: bool,
                                 md5: Option<seq<bv8>>, sep: char)
    requires Valid(a) && p in a.nodes && x in a.nodes[p].children && a.nodes[x].parent == Some(p)
    requires sep !in a.nodes[x].name
    ensures var b := AllocChild(a, p, kp, a.nodes[x].name, isFolder, md5, sep);
      && x in b.nodes && a.next in b.nodes && a.next != x
      && a.next !in b.nodes[p].children
      && FullPath(b, a.next) == FullPath(b, x)
  {
    var name := a.nodes[x].name;
    EqualsIgnoreCaseReflexive(name);
    assert x in a.nodes && NameMatches(a, x, name, sep);
    AllocChildEffect(a, p, kp, name, isFolder, md5, sep);
    AllocChildQueries(a, p, kp, name, isFolder, md5, sep);
    var b := AllocChild(a, p, kp, name, isFolder, md5, sep);
    UpwardFrame(a, b, x);
  }

  /** The root constructor: a parentless folder with the given keys and no children; nothing else changes. */
  lemma AllocRootEffect(a: Arena, kp: KeyPair, dk: Option<KeyPair>)
    requires Valid(a)
    ensures a.next !in a.nodes
    ensures var b := AllocRoot(a, kp, dk);
      && Valid(b) && b.nodes.Keys == a.nodes.Keys + {a.next} && b.next == a.next + 1
      && IsRoot(b, a.next) && b.nodes[a.next].isFolder
      && b.nodes[a.next].domainKeys == dk && b.nodes[a.next].children == {}
      && Shared(b, a.next) == Ok(false) && FullPath(b, a.next) == []
      && SameUpward(a, b)
  {
    ValidAfterAlloc(a, Node(kp, true, None, "", None, dk, {}));
  }

  /** The root constructor keeps a tree well built. */
  lemma AllocRootKeepsWellBuilt(a: Arena, kp: KeyPair, dk: Option<KeyPair>)
    requires WellBuilt(a)
    ensures WellBuilt(AllocRoot(a, kp, dk))
  {
    AllocRootEffect(a, kp, dk);
    var b := AllocRoot(a, kp, dk);
    var id := a.next;
    forall n | n in b.nodes ensures DistinctNames(b, b.nodes[n].children) {
      if n != id {
        assert n in a.nodes && b.nodes[n] == a.nodes[n] && LinksOrdered(a, n);
        DistinctNamesFrame(a, b, a.nodes[n].children);
      }
    }
    forall c | c in b.nodes && b.nodes[c].parent.Some?
      ensures b.nodes[c].parent.value in b.nodes && c in b.nodes[b.nodes[c].parent.value].children
    {
      assert c != id && c in a.nodes && b.nodes[c] == a.nodes[c];
      var p := a.nodes[c].parent.value;
      assert p in a.nodes && c in a.nodes[p].children;
      assert p != id && b.nodes[p] == a.nodes[p];
    }
  }

  /** The root constructor keeps the links agreeing and, given keys, every node keyed. */
  lemma AllocRootKeepsInvariants(a: Arena, kp: KeyPair, dk: Option<KeyPair>)
    requires Valid(a)
    ensures var b := AllocRoot(a, kp, dk);
      && (ParentLinksAgree(a) ==> ParentLinksAgree(b))
      && (AllKeyed(a) && dk.Some? ==> AllKeyed(b))
  {
    AllocRootEffect(a, kp, dk);
    var b := AllocRoot(a, kp, dk);
    var id := a.next;
    if ParentLinksAgree(a) {
      forall n, c | n in b.nodes && c in b.nodes[n].children ensures c in b.nodes && b.nodes[c].parent == Some(n) {
        assert n != id && n in a.nodes && LinksOrdered(a, n);
      }
    }
  }
}
