/**
 * The FileTreeNode objects of one program as a mutable store: the
 * constructors, the child management, the domain-key cascade and the
 * sharing queries, each a method proved against the arena model.
 */
module FileTreeStore {
  import opened Names
  import opened TreeModel
  import opened TreeLemmas

  /**
   * All nodes of a program, and the path separator that the child lookup
   * strips from its query.
   */
  class FileTree {
    const separator: char
    var arena: Arena

    ghost predicate Valid()
      reads this
    {
      TreeModel.Valid(arena)
    }

    /** An empty store: no node has been constructed yet. */
    constructor (separator: char)
      ensures Valid() && this.separator == separator && arena == Arena(map[], 0)
    {
      this.separator := separator;
      arena := Arena(map[], 0);
    }

    /** The root constructor: a parentless folder with the given domain keys. */
    method NewRoot(keyPair: KeyPair, domainKeys: Option<KeyPair>) returns (root: NodeId)
      requires Valid()
      modifies this
      ensures Valid()
      ensures root == old(arena.next) && root !in old(arena.nodes)
      ensures arena == AllocRoot(old(arena), keyPair, domainKeys)
    {
      AllocRootEffect(arena, keyPair, domainKeys);
      root := arena.next;
      arena := Arena(arena.nodes[root := Node(keyPair, true, None, "", None, domainKeys, {})], root + 1);
    }

    /** The folder constructor. */
    method NewFolder(parent: NodeId, keyPair: KeyPair, name: string) returns (folder: NodeId)
      requires Valid() && parent in arena.nodes
      modifies this
      ensures Valid()
      ensures folder == old(arena.next) && folder !in old(arena.nodes)
      ensures arena == AllocChild(old(arena), parent, keyPair, name, true, None, separator)
    {
      folder := NewChild(parent, keyPair, name, true, None);
    }

    /** The file constructor, with the digest of the latest version. */
    method NewFile(parent: NodeId, keyPair: KeyPair, name: string, md5: Option<seq<bv8>>) returns (file: NodeId)
      requires Valid() && parent in arena.nodes
      modifies this
      ensures Valid()
      ensures file == old(arena.next) && file !in old(arena.nodes)
      ensures arena == AllocChild(old(arena), parent, keyPair, name, false, md5, separator)
    {
      file := NewChild(parent, keyPair, name, false, md5);
    }

    /**
     * The private constructor: the record takes the parent reference and the
     * parent's domain keys, then the parent is asked to add it as a child.
     */
    method NewChild(parent: NodeId, keyPair: KeyPair, name: string, isFolder: bool, md5: Option<seq<bv8>>)
      returns (child: NodeId)
      requires Valid() && parent in arena.nodes
      modifies this
      ensures Valid()
      ensures child == old(arena.next) && child !in old(arena.nodes)
      ensures arena == AllocChild(old(arena), parent, keyPair, name, isFolder, md5, separator)
    {
      AllocChildEffect(arena, parent, keyPair, name, isFolder, md5, separator);
      child := arena.next;
      var node := NewChildNode(arena, parent, keyPair, name, isFolder, md5);
      ValidAfterAlloc(arena, node);
      arena := Arena(arena.nodes[child := node], child + 1);
      AddChild(parent, child);
    }

    /**
     * getChildByName: no child for a null query; otherwise a child whose name
     * equals the query without separators, ignoring case, and no child
     * exactly when none matches. The children are tried in no fixed order.
     */
    method GetChildByName(n: NodeId, name: Option<string>) returns (child: Option<NodeId>)
      requires Valid() && n in arena.nodes
      ensures child.Some? ==>
                && name.Some? && child.value in arena.nodes[n].children
                && child.value in arena.nodes && NameMatches(arena, child.value, name.value, separator)
      ensures child.None? <==> name.None? || !MatchIn(arena, arena.nodes[n].children, name.value, separator)
    {
      if name.None? {
        return None;
      }
      var withoutSeparator := RemoveSeparators(name.value, separator);
      var kids := arena.nodes[n].children;
      var todo := kids;
      while todo != {}
        invariant todo <= kids
        invariant forall c :: c in kids - todo && c in arena.nodes ==> !NameMatches(arena, c, name.value, separator)
        decreases todo
      {
        var c :| c in todo;
        assert LinksOrdered(arena, n);
        if EqualsIgnoreCase(arena.nodes[c].name, withoutSeparator) {
          return Some(c);
        }
        todo := todo - {c};
      }
      return None;
    }

    /** addChild: `child` joins the children of `n` unless a child already matches its name. */
    method AddChild(n: NodeId, child: NodeId)
      requires Valid() && n in arena.nodes && child in arena.nodes && n < child
      modifies this
      ensures Valid()
      ensures arena == WithChild(old(arena), n, child, separator)
    {
      var existing := GetChildByName(n, Some(arena.nodes[child].name));
      if existing.None? {
        var kids := arena.nodes[n].children + {child};
        assert LinksOrdered(arena, n);
        ValidWithChildren(arena, n, kids);
        arena := WithChildren(arena, n, kids);
      }
    }

    /**
     * removeChild: removes `child` itself when it is a child of `n`,
     * otherwise the child found by its name, if any.
     */
    method RemoveChild(n: NodeId, child: NodeId)
      requires Valid() && n in arena.nodes && child in arena.nodes
      modifies this
      ensures Valid()
      ensures n in arena.nodes && arena == WithChildren(old(arena), n, arena.nodes[n].children)
      ensures IsRemoval(old(arena), n, child, separator, arena.nodes[n].children)
    {
      var kids := arena.nodes[n].children;
      assert LinksOrdered(arena, n);
      if child in kids {
        ValidWithChildren(arena, n, kids - {child});
        arena := WithChildren(arena, n, kids - {child});
      } else {
        var found := GetChildByName(n, Some(arena.nodes[child].name));
        if found.Some? {
          ValidWithChildren(arena, n, kids - {found.value});
          arena := WithChildren(arena, n, kids - {found.value});
        }
      }
    }

    method SetName(n: NodeId, name: string)
      requires Valid() && n in arena.nodes
      modifies this
      ensures Valid()
      ensures arena == old(arena).(nodes := old(arena.nodes)[n := old(arena.nodes[n]).(name := name)])
    {
      var after := arena.(nodes := arena.nodes[n := arena.nodes[n].(name := name)]);
      ValidShape(arena, after);
      arena := after;
    }

    /** setParent writes the parent reference only; no children set is updated. */
    method SetParent(n: NodeId, parent: Option<NodeId>)
      requires Valid() && n in arena.nodes
      requires parent.Some? ==> parent.value in arena.nodes && parent.value < n
      modifies this
      ensures Valid()
      ensures arena == old(arena).(nodes := old(arena.nodes)[n := old(arena.nodes[n]).(parent := parent)])
    {
      var after := arena.(nodes := arena.nodes[n := arena.nodes[n].(parent := parent)]);
      forall m | m in after.nodes ensures LinksOrdered(after, m) {
        assert LinksOrdered(arena, m);
      }
      arena := after;
    }

    method SetMD5(n: NodeId, md5: Option<seq<bv8>>)
      requires Valid() && n in arena.nodes
      modifies this
      ensures Valid()
      ensures arena == old(arena).(nodes := old(arena.nodes)[n := old(arena.nodes[n]).(md5 := md5)])
    {
      var after := arena.(nodes := arena.nodes[n := arena.nodes[n].(md5 := md5)]);
      ValidShape(arena, after);
      arena := after;
    }

    /**
     * setDomainKeys: the node takes the keys, then every child is given them
     * in turn, recursively, so that the whole subtree ends with them.
     */
    method SetDomainKeys(n: NodeId, domainKeys: Option<KeyPair>)
      requires Valid() && n in arena.nodes
      modifies this
      ensures Valid()
      ensures arena == WithDomainKeys(old(arena), n, domainKeys)
      decreases arena.next - n
    {
      ghost var a0 := arena;
      var after := arena.(nodes := arena.nodes[n := arena.nodes[n].(domainKeys := domainKeys)]);
      ValidShape(arena, after);
      arena := after;
      var kids := arena.nodes[n].children;
      var todo := kids;
      ghost var done: set<NodeId> := {};
      while todo != {}
        invariant todo + done == kids && todo !! done
        invariant SameShape(a0, arena) && Valid()
        invariant CascadedThrough(a0, arena, n, done, domainKeys)
        decreases todo
      {
        var c :| c in todo;
        assert LinksOrdered(a0, n);
        ghost var before := arena;
        SetDomainKeys(c, domainKeys);
        CascadeStep(a0, before, n, c, done, domainKeys);
        todo := todo - {c};
        done := done + {c};
      }
      CascadeDone(a0, arena, n, domainKeys);
    }

    /**
     * isShared: false for a root; a folder walks up to its root and compares
     * its own domain keys with the root's; a file asks its parent.
     */
    method IsShared(n: NodeId) returns (shared: Result<bool>)
      requires Valid() && n in arena.nodes
      ensures shared == Shared(arena, n)
      decreases n
    {
      var node := arena.nodes[n];
      assert LinksOrdered(arena, n);
      if node.parent.None? {
        return Ok(false);
      } else if node.isFolder {
        var tmp := n;
        while arena.nodes[tmp].parent.Some?
          invariant tmp in arena.nodes && Root(arena, tmp) == Root(arena, n)
          decreases tmp
        {
          assert LinksOrdered(arena, tmp);
          tmp := arena.nodes[tmp].parent.value;
        }
        if node.domainKeys.None? {
          return NullPointer;
        }
        return Ok(node.domainKeys != arena.nodes[tmp].domainKeys);
      } else {
        shared := IsShared(node.parent.value);
      }
    }

    /**
     * hasShared: false for a file; true for a shared folder; otherwise every
     * child is asked and the answers are or-ed.
     */
    method HasShared(n: NodeId) returns (shared: Result<bool>)
      requires Valid() && n in arena.nodes
      ensures shared == SubtreeShared(arena, n)
      decreases arena.next - n
    {
      var node := arena.nodes[n];
      if !node.isFolder {
        return Ok(false);
      }
      var own := IsShared(n);
      if own.NullPointer? {
        return NullPointer;
      }
      if own.value {
        return Ok(true);
      }
      var any := false;
      var todo := node.children;
      while todo != {}
        invariant todo <= node.children
        invariant forall c :: c in node.children - todo ==> SubtreeShared(arena, c).Ok?
        invariant any <==> exists c :: c in node.children - todo && SubtreeShared(arena, c) == Ok(true)
        decreases todo
      {
        var c :| c in todo;
        assert LinksOrdered(arena, n);
        var sub := HasShared(c);
        if sub.NullPointer? {
          return NullPointer;
        }
        any := any || sub.value;
        todo := todo - {c};
      }
      assert node.children - todo == node.children;
      return Ok(any);
    }
  }

  /**
   * The state of the cascade from `n` once the children in `done` are
   * processed: `n` and every node below a child in `done` carry `d`, all
   * else is as in `a0`.
   */
  ghost predicate CascadedThrough(a0: Arena, a: Arena, n: NodeId, done: set<NodeId>, d: Option<KeyPair>)
    requires TreeModel.Valid(a0) && a0.nodes.Keys <= a.nodes.Keys
  {
    forall m :: m in a0.nodes ==>
      a.nodes[m] == if m == n || BelowSome(a0, m, done) then a0.nodes[m].(domainKeys := d) else a0.nodes[m]
  }

  /** `m` lies in the subtree of some node of `tops`. */
  ghost predicate BelowSome(a0: Arena, m: NodeId, tops: set<NodeId>)
    requires TreeModel.Valid(a0)
  {
    exists c :: c in tops && c in a0.nodes && InSubtree(a0, m, c)
  }

  /** One more child processed by the recursive call extends the cascaded part by that child's subtree. */
  lemma CascadeStep(a0: Arena, before: Arena, n: NodeId, c: NodeId, done: set<NodeId>, d: Option<KeyPair>)
    requires TreeModel.Valid(a0) && SameShape(a0, before) && c in a0.nodes
    requires CascadedThrough(a0, before, n, done, d)
    ensures TreeModel.Valid(before) && SameShape(a0, WithDomainKeys(before, c, d))
    ensures CascadedThrough(a0, WithDomainKeys(before, c, d), n, done + {c}, d)
  {
    ValidShape(a0, before);
    var after := WithDomainKeys(before, c, d);
    CascadeKeepsShape(before, c, d);
    forall m | m in a0.nodes
      ensures after.nodes[m] ==
        if m == n || BelowSome(a0, m, done + {c}) then a0.nodes[m].(domainKeys := d) else a0.nodes[m]
    {
      CascadeStepAt(a0, before, n, c, done, d, m);
    }
  }

  /** CascadeStep at one node `m`. */
  lemma CascadeStepAt(a0: Arena, before: Arena, n: NodeId, c: NodeId, done: set<NodeId>, d: Option<KeyPair>, m: NodeId)
    requires TreeModel.Valid(a0) && TreeModel.Valid(before) && SameShape(a0, before) && c in a0.nodes && m in a0.nodes
    requires before.nodes[m] == if m == n || BelowSome(a0, m, done) then a0.nodes[m].(domainKeys := d) else a0.nodes[m]
    ensures WithDomainKeys(before, c, d).nodes[m] ==
      if m == n || BelowSome(a0, m, done + {c}) then a0.nodes[m].(domainKeys := d) else a0.nodes[m]
  {
    InSubtreeShape(a0, before, m, c);
    if InSubtree(a0, m, c) {
      assert BelowSome(a0, m, done + {c});
    } else if BelowSome(a0, m, done + {c}) {
      var x :| x in done + {c} && x in a0.nodes && InSubtree(a0, m, x);
      assert x in done;
    }
  }

  /** With every child processed the cascade is exactly setDomainKeys' effect. */
  lemma CascadeDone(a0: Arena, a: Arena, n: NodeId, d: Option<KeyPair>)
    requires TreeModel.Valid(a0) && n in a0.nodes && SameShape(a0, a)
    requires CascadedThrough(a0, a, n, a0.nodes[n].children, d)
    ensures a == WithDomainKeys(a0, n, d)
  {
    assert LinksOrdered(a0, n);
    var w := WithDomainKeys(a0, n, d);
    forall m | m in a0.nodes ensures a.nodes[m] == w.nodes[m] {
      assert InSubtree(a0, m, n) <==> m == n || exists c :: c in a0.nodes[n].children && InSubtree(a0, m, c);
    }
    assert a.nodes == w.nodes;
  }
}
