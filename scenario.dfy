/**
 * A client of the store: the sharing walk-through of a small tree, built
 * with the constructors and shared with one setDomainKeys call, and the
 * write permission of nodes built under a keyed root.
 */
module Scenarios {
  import opened Names
  import opened TreeModel
  import opened TreeLemmas
  import opened FileTreeStore

  /**
   * One constructor call under `p` when no child of `p` matches `name`: the
   * new node joins the children of `p`, and children keep naming their
   * parents and every node keeps domain keys.
   */
  method Attach(t: FileTree, p: NodeId, kp: KeyPair, name: string, isFolder: bool, md5: Option<seq<bv8>>)
    returns (c: NodeId)
    requires t.Valid() && p in t.arena.nodes && ParentLinksAgree(t.arena) && AllKeyed(t.arena)
    requires !MatchIn(t.arena, t.arena.nodes[p].children, name, t.separator)
    requires isFolder ==> md5.None?
    modifies t
    ensures t.Valid() && ParentLinksAgree(t.arena) && AllKeyed(t.arena)
    ensures c == old(t.arena.next) && c in t.arena.nodes && c !in old(t.arena.nodes)
    ensures t.arena.nodes.Keys == old(t.arena.nodes.Keys) + {c}
    ensures t.arena.nodes[c] == Node(kp, isFolder, Some(p), name, md5, old(t.arena.nodes[p].domainKeys), {})
    ensures t.arena.nodes[p].children == old(t.arena.nodes[p].children) + {c}
    ensures forall m :: m in old(t.arena.nodes) && m != p ==> t.arena.nodes[m] == old(t.arena.nodes[m])
    ensures SameUpward(old(t.arena), t.arena)
  {
    ghost var s0 := t.arena;
    if isFolder {
      c := t.NewFolder(p, kp, name);
    } else {
      c := t.NewFile(p, kp, name, md5);
    }
    AllocChildEffect(s0, p, kp, name, isFolder, md5, t.separator);
    AllocChildKeepsLinks(s0, p, kp, name, isFolder, md5, t.separator);
    AllocChildKeepsKeyed(s0, p, kp, name, isFolder, md5, t.separator);
  }

  /** The tree R / A / {f1, B} of the walk-through, with R keyed by `d0`. */
  method BuildTree(d0: KeyPair) returns (t: FileTree, r: NodeId, a: NodeId, f: NodeId, b: NodeId)
    ensures fresh(t) && t.Valid() && t.separator == '/'
    ensures ParentLinksAgree(t.arena) && AllKeyed(t.arena)
    ensures r in t.arena.nodes && a in t.arena.nodes && f in t.arena.nodes && b in t.arena.nodes
    ensures IsRoot(t.arena, r) && t.arena.nodes[r].isFolder && t.arena.nodes[r].domainKeys == Some(d0)
    ensures a in t.arena.nodes[r].children && t.arena.nodes[a].isFolder
    ensures !IsRoot(t.arena, a) && Root(t.arena, a) == r
    ensures f in t.arena.nodes[a].children && b in t.arena.nodes[a].children
  {
    t := new FileTree('/');
    ghost var e := t.arena;
    r := t.NewRoot(KeyPair(0), Some(d0));
    AllocRootKeepsInvariants(e, KeyPair(0), Some(d0));
    AllocRootEffect(e, KeyPair(0), Some(d0));
    assert t.arena.nodes[r].children == {};

    a := Attach(t, r, KeyPair(1), "A", true, None);
    assert Root(t.arena, a) == r;
    ghost var s2 := t.arena;
    f := Attach(t, a, KeyPair(2), "f1", false, Some([0x61, 0x62, 0x63]));
    UpwardFrame(s2, t.arena, a);
    ghost var s3 := t.arena;
    assert s3.nodes[a].children == {f};
    assert !NameMatches(s3, f, "B", '/') by {
      assert RemoveSeparators("B", '/') == "B";
      assert s3.nodes[f].name == "f1";
    }
    b := Attach(t, a, KeyPair(3), "B", true, None);
    UpwardFrame(s3, t.arena, a);
  }

  /**
   * Root R with domain keys D0, folder A under R, file f1 and folder B under
   * A; then A is given domain keys D1. Afterwards A and B hold D1, A, B and f1 are shared and
   * R has a shared descendant, and before the call every node could write.
   */
  method SharingScenario() returns (aShared: Result<bool>, bShared: Result<bool>, fShared: Result<bool>,
                                    rootHasShared: Result<bool>, fileCouldWrite: Result<bool>,
                                    aKeys: Option<KeyPair>, bKeys: Option<KeyPair>)
    ensures aKeys == Some(KeyPair(101)) && bKeys == Some(KeyPair(101))
    ensures aShared == Ok(true) && bShared == Ok(true) && fShared == Ok(true)
    ensures rootHasShared == Ok(true)
    ensures fileCouldWrite == Ok(true)
  {
    var d0, d1 := KeyPair(100), KeyPair(101);
    var t, r, a, f, b := BuildTree(d0);
    ghost var s4 := t.arena;
    AllKeyedQueriesSucceed(s4, f);
    fileCouldWrite := CanWrite(t.arena, f);

    t.SetDomainKeys(a, Some(d1));
    CascadeSharesSubtree(s4, a, Some(d1));
    assert InSubtree(s4, a, a);
    assert InSubtree(s4, f, a) by { assert InSubtree(s4, f, f); }
    assert InSubtree(s4, b, a) by { assert InSubtree(s4, b, b); }
    aKeys := t.arena.nodes[a].domainKeys;
    bKeys := t.arena.nodes[b].domainKeys;
    aShared := t.IsShared(a);
    bShared := t.IsShared(b);
    fShared := t.IsShared(f);

    ghost var s5 := t.arena;
    CascadeKeepsShape(s4, a, Some(d1));
    assert AllKeyed(s5) by {
      forall m | m in s5.nodes ensures s5.nodes[m].domainKeys.Some? {
        assert m in s4.nodes;
      }
    }
    AllKeyedQueriesSucceed(s5, r);
    rootHasShared := t.HasShared(r);
    SubtreeSharedMeaning(s5, r);
    assert FolderReach(s5, a, r) by {
      assert a in s5.nodes[r].children && FolderReach(s5, a, a);
    }
  }
}
