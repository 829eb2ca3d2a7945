/**
 * The file-tree metadata nodes of Hive2Hive, seen as one arena: every
 * FileTreeNode object is a record under its identity (NodeId, given out in
 * creation order), and a reference field holds another node's identity.
 * This module holds the records, the well-formedness of the arena, the
 * read-only queries of a node as functions, the effect of each mutation as a
 * function (or relation) on arenas, and the lemmas relating them.
 */
module TreeModel {
  import opened Names

  datatype Option<T> = None | Some(value: T)

  /** The value of a query, or the NullPointerException the source raises. */
  datatype Result<T> = Ok(value: T) | NullPointer

  /** An asymmetric key pair; the source compares key pairs by identity. */
  datatype KeyPair = KeyPair(serial: nat)

  type NodeId = nat

  /** The fields of one FileTreeNode; `None` stands for a null reference. */
  datatype Node = Node(
    keyPair: KeyPair,
    isFolder: bool,
    parent: Option<NodeId>,
    name: string,
    md5: Option<seq<bv8>>,
    domainKeys: Option<KeyPair>,
    children: set<NodeId>)

  /** All nodes, and the identity the next constructed node receives. */
  datatype Arena = Arena(nodes: map<NodeId, Node>, next: NodeId)

  /**
   * Every reference points to a live node; a parent is older than its child
   * and a child is younger than its folder, so neither the parent links nor
   * the children links can form a cycle.
   */
  ghost predicate Valid(a: Arena)
  {
    forall n :: n in a.nodes ==> LinksOrdered(a, n)
  }

  /** The links of node `n` point to live nodes, upwards to older and downwards to younger ones. */
  ghost predicate LinksOrdered(a: Arena, n: NodeId)
    requires n in a.nodes
  {
    && n < a.next
    && (a.nodes[n].parent.Some? ==> a.nodes[n].parent.value in a.nodes && a.nodes[n].parent.value < n)
    && (forall c :: c in a.nodes[n].children ==> c in a.nodes && n < c < a.next)
  }

  /** Every node listed as a child names that folder as its parent. */
  ghost predicate ParentLinksAgree(a: Arena)
  {
    forall n, c :: n in a.nodes && c in a.nodes[n].children ==> c in a.nodes && a.nodes[c].parent == Some(n)
  }

  /** Every non-root node is listed among its parent's children. */
  ghost predicate ChildLinksAgree(a: Arena)
  {
    forall c :: c in a.nodes && a.nodes[c].parent.Some? ==>
      a.nodes[c].parent.value in a.nodes && c in a.nodes[a.nodes[c].parent.value].children
  }

  // ---------------------------------------------------------------------
  // Structure: roots, ancestors, subtrees

  predicate IsRoot(a: Arena, n: NodeId)
    requires n in a.nodes
  {
    a.nodes[n].parent.None?
  }

  /** `x` is `n` or is reached from `n` by following parent references. */
  ghost predicate IsAncestorOrSelf(a: Arena, x: NodeId, n: NodeId)
    requires Valid(a) && n in a.nodes
    decreases n
  {
    x == n || (a.nodes[n].parent.Some? && IsAncestorOrSelf(a, x, a.nodes[n].parent.value))
  }

  /** The root reached from `n` by following parent references. */
  function Root(a: Arena, n: NodeId): (r: NodeId)
    requires Valid(a) && n in a.nodes
    ensures r in a.nodes && IsRoot(a, r) && r <= n
    ensures IsAncestorOrSelf(a, r, n)
    decreases n
  {
    match a.nodes[n].parent
    case None => n
    case Some(p) => Root(a, p)
  }

  /** `m` is `n` or is reached from `n` through children sets. */
  ghost predicate InSubtree(a: Arena, m: NodeId, n: NodeId)
    requires Valid(a) && n in a.nodes
    decreases a.next - n
  {
    m == n || exists c :: c in a.nodes[n].children && InSubtree(a, m, c)
  }

  /** `m` is reached from `n` through children sets passing folders only, `m` included. */
  ghost predicate FolderReach(a: Arena, m: NodeId, n: NodeId)
    requires Valid(a) && n in a.nodes
    decreases a.next - n
  {
    a.nodes[n].isFolder && (m == n || exists c :: c in a.nodes[n].children && FolderReach(a, m, c))
  }

  lemma {:induction false} AncestorIsLive(a: Arena, x: NodeId, n: NodeId)
    requires Valid(a) && n in a.nodes && IsAncestorOrSelf(a, x, n)
    ensures x in a.nodes && x <= n
    decreases n
  {
    if x != n {
      AncestorIsLive(a, x, a.nodes[n].parent.value);
    }
  }

  lemma {:induction false} AncestorTransitive(a: Arena, x: NodeId, y: NodeId, n: NodeId)
    requires Valid(a) && n in a.nodes && y in a.nodes
    requires IsAncestorOrSelf(a, x, y) && IsAncestorOrSelf(a, y, n)
    ensures IsAncestorOrSelf(a, x, n)
    decreases n
  {
    if y != n {
      AncestorTransitive(a, x, y, a.nodes[n].parent.value);
    }
  }

  /** Nodes on one parent chain share one root. */
  lemma {:induction false} AncestorSameRoot(a: Arena, x: NodeId, n: NodeId)
    requires Valid(a) && n in a.nodes && IsAncestorOrSelf(a, x, n)
    ensures x in a.nodes && Root(a, x) == Root(a, n)
    decreases n
  {
    AncestorIsLive(a, x, n);
    if x != n {
      AncestorSameRoot(a, x, a.nodes[n].parent.value);
    }
  }

  lemma {:induction false} SubtreeIsLive(a: Arena, m: NodeId, n: NodeId)
    requires Valid(a) && n in a.nodes && InSubtree(a, m, n)
    ensures m in a.nodes && n <= m
    decreases a.next - n
  {
    if m != n {
      var c :| c in a.nodes[n].children && InSubtree(a, m, c);
      SubtreeIsLive(a, m, c);
    }
  }

  /** A node below `n` other than `n` is a child of some node below `n`. */
  lemma {:induction false} SubtreeLastStep(a: Arena, m: NodeId, n: NodeId) returns (p: NodeId)
    requires Valid(a) && n in a.nodes && InSubtree(a, m, n) && m != n
    ensures p in a.nodes && InSubtree(a, p, n) && m in a.nodes[p].children
    decreases a.next - n
  {
    var c :| c in a.nodes[n].children && InSubtree(a, m, c);
    if m == c {
      p := n;
    } else {
      p := SubtreeLastStep(a, m, c);
      assert InSubtree(a, p, n) by {
        assert c in a.nodes[n].children && InSubtree(a, p, c);
      }
    }
  }

  /** When children name their parents, every node of a subtree has its top as an ancestor. */
  lemma {:induction false} SubtreeHasAncestor(a: Arena, m: NodeId, n: NodeId)
    requires Valid(a) && ParentLinksAgree(a) && n in a.nodes && InSubtree(a, m, n)
    ensures m in a.nodes && IsAncestorOrSelf(a, n, m)
    decreases a.next - n
  {
    if m != n {
      var c :| c in a.nodes[n].children && InSubtree(a, m, c);
      assert LinksOrdered(a, n);
      assert c in a.nodes && n < c < a.next && a.nodes[c].parent == Some(n);
      SubtreeHasAncestor(a, m, c);
      assert IsAncestorOrSelf(a, n, a.nodes[c].parent.value);
      AncestorTransitive(a, n, c, m);
    }
  }

  // ---------------------------------------------------------------------
  // Arenas that differ only in some fields

  /** Same nodes, same parents and children links, same next identity. */
  ghost predicate SameShape(a: Arena, b: Arena)
  {
    && a.next == b.next
    && a.nodes.Keys == b.nodes.Keys
    && forall m :: m in a.nodes ==>
         b.nodes[m].parent == a.nodes[m].parent && b.nodes[m].children == a.nodes[m].children
  }

  /** Every node of `a` is in `b` with the same parent, name, kind and domain keys. */
  ghost predicate SameUpward(a: Arena, b: Arena)
  {
    forall m :: m in a.nodes ==>
      && m in b.nodes
      && b.nodes[m].parent == a.nodes[m].parent
      && b.nodes[m].name == a.nodes[m].name
      && b.nodes[m].isFolder == a.nodes[m].isFolder
      && b.nodes[m].domainKeys == a.nodes[m].domainKeys
  }

  lemma SameUpwardTransitive(a: Arena, b: Arena, c: Arena)
    requires SameUpward(a, b) && SameUpward(b, c)
    ensures SameUpward(a, c)
  {
  }

  lemma ValidShape(a: Arena, b: Arena)
    requires Valid(a) && SameShape(a, b)
    ensures Valid(b)
  {
    forall n | n in b.nodes ensures LinksOrdered(b, n) {
      assert n in a.nodes && LinksOrdered(a, n);
    }
  }

  /** Adding a childless record under the next identity keeps the arena valid and changes no other node. */
  lemma ValidAfterAlloc(a: Arena, node: Node)
    requires Valid(a) && node.children == {}
    requires node.parent.Some? ==> node.parent.value in a.nodes
    ensures a.next !in a.nodes
    ensures Valid(Arena(a.nodes[a.next := node], a.next + 1))
    ensures SameUpward(a, Arena(a.nodes[a.next := node], a.next + 1))
  {
    var b := Arena(a.nodes[a.next := node], a.next + 1);
    forall n | n in a.nodes ensures n < a.next {
      assert LinksOrdered(a, n);
    }
    forall n | n in b.nodes ensures LinksOrdered(b, n) {
      if n != a.next {
        assert LinksOrdered(a, n);
      } else if node.parent.Some? {
        assert LinksOrdered(a, node.parent.value);
      }
    }
  }

  lemma {:induction false} InSubtreeShape(a: Arena, b: Arena, m: NodeId, n: NodeId)
    requires Valid(a) && SameShape(a, b) && n in a.nodes
    ensures Valid(b) && InSubtree(a, m, n) == InSubtree(b, m, n)
    decreases a.next - n
  {
    ValidShape(a, b);
    if InSubtree(a, m, n) && m != n {
      var c :| c in a.nodes[n].children && InSubtree(a, m, c);
      InSubtreeShape(a, b, m, c);
    }
    if InSubtree(b, m, n) && m != n {
      var c :| c in b.nodes[n].children && InSubtree(b, m, c);
      InSubtreeShape(a, b, m, c);
    }
  }

  lemma {:induction false} RootShape(a: Arena, b: Arena, n: NodeId)
    requires Valid(a) && SameShape(a, b) && n in a.nodes
    ensures Valid(b) && Root(a, n) == Root(b, n)
    decreases n
  {
    ValidShape(a, b);
    if a.nodes[n].parent.Some? {
      RootShape(a, b, a.nodes[n].parent.value);
    }
  }

  // ---------------------------------------------------------------------
  // Queries

  /**
   * isShared: false for a root; for a folder, whether its own domain keys
   * differ from those of its root (a NullPointerException when they are
   * null); for a file, the answer of its parent.
   */
  function Shared(a: Arena, n: NodeId): Result<bool>
    requires Valid(a) && n in a.nodes
    decreases n
  {
    var node := a.nodes[n];
    if node.parent.None? then Ok(false)
    else if node.isFolder then
      if node.domainKeys.None? then NullPointer
      else Ok(node.domainKeys != a.nodes[Root(a, n)].domainKeys)
    else Shared(a, node.parent.value)
  }

  /**
   * hasShared: false for a file; for a folder, true when it is shared, and
   * otherwise the disjunction of its children's answers, every child being
   * asked (so an exception from any child propagates).
   */
  ghost function SubtreeShared(a: Arena, n: NodeId): Result<bool>
    requires Valid(a) && n in a.nodes
    decreases a.next - n
  {
    var node := a.nodes[n];
    if !node.isFolder then Ok(false)
    else match Shared(a, n)
      case NullPointer => NullPointer
      case Ok(true) => Ok(true)
      case Ok(false) =>
        if exists c :: c in node.children && SubtreeShared(a, c) == NullPointer then NullPointer
        else Ok(exists c :: c in node.children && SubtreeShared(a, c) == Ok(true))
  }

  /**
   * canWrite: true when the node has domain keys, otherwise the answer of its
   * parent. It is never false: it is true exactly when the node or one of its
   * ancestors has domain keys, and the null parent of a root is dereferenced
   * otherwise.
   */
  function CanWrite(a: Arena, n: NodeId): (r: Result<bool>)
    requires Valid(a) && n in a.nodes
    ensures r != Ok(false)
    ensures r == Ok(true) <==>
              exists x :: x in a.nodes && IsAncestorOrSelf(a, x, n) && a.nodes[x].domainKeys.Some?
    decreases n
  {
    var node := a.nodes[n];
    if node.domainKeys.Some? then
      assert IsAncestorOrSelf(a, n, n);
      Ok(true)
    else if node.parent.None? then
      assert forall x :: x in a.nodes && IsAncestorOrSelf(a, x, n) ==> x == n;
      NullPointer
    else
      var p := node.parent.value;
      var r := CanWrite(a, p);
      assert forall x :: x in a.nodes && IsAncestorOrSelf(a, x, p) ==> IsAncestorOrSelf(a, x, n);
      assert forall x :: x in a.nodes && IsAncestorOrSelf(a, x, n) && x != n ==> IsAncestorOrSelf(a, x, p);
      r
  }

  /** getFullPath: no segment for a root, otherwise the parent's path and the node's name. */
  function FullPath(a: Arena, n: NodeId): (r: seq<string>)
    requires Valid(a) && n in a.nodes
    ensures r == [] <==> a.nodes[n].parent.None?
    ensures r != [] ==> r[|r| - 1] == a.nodes[n].name
    ensures |r| <= n
    decreases n
  {
    assert LinksOrdered(a, n);
    match a.nodes[n].parent
    case None => []
    case Some(p) => FullPath(a, p) + [a.nodes[n].name]
  }

  // ---------------------------------------------------------------------
  // Child lookup by name

  /** Child `c`'s stored name equals the query with its separators removed, ignoring case. */
  predicate NameMatches(a: Arena, c: NodeId, query: string, sep: char)
    requires c in a.nodes
  {
    EqualsIgnoreCase(a.nodes[c].name, RemoveSeparators(query, sep))
  }

  /** Some node of `kids` matches the query. */
  ghost predicate MatchIn(a: Arena, kids: set<NodeId>, query: string, sep: char)
  {
    exists c :: c in kids && c in a.nodes && NameMatches(a, c, query, sep)
  }

  /** No two distinct nodes of `kids` have names equal up to case. */
  ghost predicate DistinctNames(a: Arena, kids: set<NodeId>)
  {
    forall x, y :: x in kids && y in kids && x in a.nodes && y in a.nodes && x != y ==>
      !EqualsIgnoreCase(a.nodes[x].name, a.nodes[y].name)
  }

  /** Distinct names carry over to an arena where the same nodes have the same names. */
  lemma DistinctNamesFrame(a: Arena, b: Arena, kids: set<NodeId>)
    requires DistinctNames(a, kids)
    requires forall x :: x in kids && x in b.nodes ==> x in a.nodes && b.nodes[x].name == a.nodes[x].name
    ensures DistinctNames(b, kids)
  {
  }

  /** Under distinct sibling names a query matches at most one child. */
  lemma MatchIsUnique(a: Arena, kids: set<NodeId>, query: string, sep: char, x: NodeId, y: NodeId)
    requires DistinctNames(a, kids)
    requires x in kids && x in a.nodes && NameMatches(a, x, query, sep)
    requires y in kids && y in a.nodes && NameMatches(a, y, query, sep)
    ensures x == y
  {
    var q := RemoveSeparators(query, sep);
    EqualsIgnoreCaseSymmetric(a.nodes[y].name, q);
    EqualsIgnoreCaseTransitive(a.nodes[x].name, q, a.nodes[y].name);
  }

  // ---------------------------------------------------------------------
  // Mutations

  /** The arena with `kids` as the children of `n` and nothing else changed. */
  function WithChildren(a: Arena, n: NodeId, kids: set<NodeId>): Arena
    requires n in a.nodes
  {
    a.(nodes := a.nodes[n := a.nodes[n].(children := kids)])
  }

  /** Replacing the children of `n` by younger live nodes keeps the arena valid and changes nothing read upwards. */
  lemma ValidWithChildren(a: Arena, n: NodeId, kids: set<NodeId>)
    requires Valid(a) && n in a.nodes
    requires forall c :: c in kids ==> c in a.nodes && n < c
    ensures Valid(WithChildren(a, n, kids)) && SameUpward(a, WithChildren(a, n, kids))
    ensures SameUpward(WithChildren(a, n, kids), a)
  {
    var b := WithChildren(a, n, kids);
    forall m | m in b.nodes ensures LinksOrdered(b, m) {
      assert LinksOrdered(a, m);
      if m == n {
        forall c | c in kids ensures c < a.next {
          assert LinksOrdered(a, c);
        }
      }
    }
  }

  /** addChild: `c` joins the children of `n` unless a child already matches its name. */
  ghost function WithChild(a: Arena, n: NodeId, c: NodeId, sep: char): Arena
    requires n in a.nodes && c in a.nodes
  {
    if MatchIn(a, a.nodes[n].children, a.nodes[c].name, sep) then a
    else WithChildren(a, n, a.nodes[n].children + {c})
  }

  /** addChild changes only the children of `n`, keeps the arena valid and changes nothing read upwards. */
  lemma WithChildEffect(a: Arena, n: NodeId, c: NodeId, sep: char)
    requires Valid(a) && n in a.nodes && c in a.nodes && n < c
    ensures var b := WithChild(a, n, c, sep);
      && Valid(b) && b.next == a.next && b.nodes.Keys == a.nodes.Keys
      && b.nodes[n] == a.nodes[n].(children := b.nodes[n].children)
      && b.nodes[n].children ==
           (if MatchIn(a, a.nodes[n].children, a.nodes[c].name, sep) then a.nodes[n].children
            else a.nodes[n].children + {c})
      && (forall m :: m in a.nodes && m != n ==> b.nodes[m] == a.nodes[m])
      && SameUpward(a, b)
  {
    if !MatchIn(a, a.nodes[n].children, a.nodes[c].name, sep) {
      assert LinksOrdered(a, n);
      ValidWithChildren(a, n, a.nodes[n].children + {c});
    }
  }

  /**
   * removeChild: the children `kids'` of `n` after removing `c`: `c` itself
   * when it is a child, otherwise one child matching `c`'s name, otherwise
   * nothing.
   */
  ghost predicate IsRemoval(a: Arena, n: NodeId, c: NodeId, sep: char, kids': set<NodeId>)
    requires n in a.nodes && c in a.nodes
  {
    var kids := a.nodes[n].children;
    if c in kids then kids' == kids - {c}
    else if MatchIn(a, kids, a.nodes[c].name, sep) then
      exists m :: m in kids && m in a.nodes && NameMatches(a, m, a.nodes[c].name, sep) && kids' == kids - {m}
    else kids' == kids
  }

  /** setDomainKeys: `d` on every node of the subtree of `n`, as that subtree stands now. */
  ghost function WithDomainKeys(a: Arena, n: NodeId, d: Option<KeyPair>): Arena
    requires Valid(a) && n in a.nodes
  {
    a.(nodes := map m | m in a.nodes :: if InSubtree(a, m, n) then a.nodes[m].(domainKeys := d) else a.nodes[m])
  }

  /** The root constructor: a parentless folder with the given domain keys and no children. */
  function AllocRoot(a: Arena, keyPair: KeyPair, domainKeys: Option<KeyPair>): Arena
  {
    Arena(a.nodes[a.next := Node(keyPair, true, None, "", None, domainKeys, {})], a.next + 1)
  }

  /** The child record the private constructor builds: the parent's domain keys and no children. */
  function NewChildNode(a: Arena, parent: NodeId, keyPair: KeyPair, name: string, isFolder: bool,
                        md5: Option<seq<bv8>>): Node
    requires parent in a.nodes
  {
    Node(keyPair, isFolder, Some(parent), name, md5, a.nodes[parent].domainKeys, {})
  }

  /** The private constructor: allocate the child record, then parent.addChild(child). */
  ghost function AllocChild(a: Arena, parent: NodeId, keyPair: KeyPair, name: string, isFolder: bool,
                            md5: Option<seq<bv8>>, sep: char): Arena
    requires parent in a.nodes
  {
    var b := Arena(a.nodes[a.next := NewChildNode(a, parent, keyPair, name, isFolder, md5)], a.next + 1);
    WithChild(b, parent, a.next, sep)
  }
}
