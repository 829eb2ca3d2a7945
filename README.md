# Hive2Hive file-tree metadata nodes

This project models Hive2Hive's `FileTreeNode`. A node records one file or folder of a user's tree:
- its key pair;
- whether it is a folder;
- a parent reference;
- a name;
- the MD5 digest of the latest file version;
- the "domain keys" that mark the sharing boundary it belongs to;
- a set of children.

The nodes are modelled as an arena. `TreeModel.Arena` maps each node identity (`NodeId`, handed out in creation order, standing for Java object identity) to a `Node` record. A reference field holds another node's identity.

`TreeModel.Valid` is the well-formedness every operation keeps: every reference is live, a parent is older than its child, and a child is younger than its folder. This ordering is what makes the recursive queries terminate.

The mutable store is the class `FileTreeStore.FileTree`. Its methods are the Java constructors and mutators, and each is proved against a function or relation on arenas:
- `AllocRoot` and `AllocChild` for the constructors;
- `WithChild` for `addChild`;
- `IsRemoval` for `removeChild`;
- `WithDomainKeys` for `setDomainKeys`;
- `Shared` for `isShared`;
- `SubtreeShared` for `hasShared`.

`canWrite` and `getFullPath` are the functions `TreeModel.CanWrite` and `TreeModel.FullPath`. The lemmas in `TreeLemmas` state the properties of these functions.

`Scenarios.SharingScenario` is a client. It builds root R (keys D0), folder A, file f1 and folder B, and gives A the keys D1. It then obtains:
- A, B and f1 are shared, through the store's method `IsShared`;
- R has a shared descendant, through the store's method `HasShared`;
- f1 could write before the share, through the function `TreeModel.CanWrite`.

A `NullPointerException` that the Java code raises is the value `Result.NullPointer`. This happens in three places:
- `isShared` on a non-root folder whose domain keys are null;
- `canWrite` walking past a root whose domain keys are null;
- `hasShared` propagating either of them.

The constructors can leave domain keys null: the root constructor accepts a null `domainKey`. So the model keeps these error paths instead of assuming keys are always present. `TreeLemmas.AllKeyedQueriesSucceed` shows that none of them can occur while every node has keys. `TreeLemmas.AllocRootKeepsInvariants` and `TreeLemmas.AllocChildKeepsKeyed` show that a tree built under a keyed root stays fully keyed.

Some behaviours of the code are kept exactly as they are:
- A child whose name collides with a sibling's still points to the parent but is not listed in the parent's children. A collision ignores case and separators, so in general the two full paths differ. A child constructed with exactly the separator-free name of an existing child that names the parent has the same full path as that child (`TreeLemmas.CollidingChildSharesPath`).
- The lookup strips separators from the query but not from the stored names. A stored name that contains a separator is therefore not found by its own name, and two siblings can end up with the same such name. This is why `TreeLemmas.WithChildKeepsNamesDistinct` requires a separator-free name.
- `setDomainKeys` overwrites every key in the subtree, so a nested share inside it is erased (`TreeLemmas.CascadeOverridesInner`).

## Model

| member | source | states |
|---|---|---|
| FileTreeStore.FileTree.NewRoot | org.hive2hive.core/src/org/hive2hive/core/model/FileTreeNode.java:70-76 | The new node gets a fresh identity and is a parentless folder. It has the given domain keys and no children. No existing node changes. |
| FileTreeStore.FileTree.NewFolder | org.hive2hive.core/src/org/hive2hive/core/model/FileTreeNode.java:37-39 | The store afterwards is `AllocChild` of the old store, with `isFolder` true and no digest. |
| FileTreeStore.FileTree.NewFile | org.hive2hive.core/src/org/hive2hive/core/model/FileTreeNode.java:49-51 | The store afterwards is `AllocChild` of the old store, with `isFolder` false and the given digest. |
| FileTreeStore.FileTree.NewChild | org.hive2hive.core/src/org/hive2hive/core/model/FileTreeNode.java:53-63 | The private constructor first builds the record (parent reference, the parent's domain keys, name, kind, digest, empty children). It then runs `addChild` on the parent. The result is exactly `AllocChild`. |
| TreeLemmas.AllocChildEffect | org.hive2hive.core/src/org/hive2hive/core/model/FileTreeNode.java:53-63 | Once a child is constructed, the arena is still valid. The new record (a) has the parent reference and the parent's domain keys whether or not it was inserted, and (b) joins the parent's children exactly when no child matches its name. No other node changes. |
| TreeLemmas.AllocChildQueries | org.hive2hive.core/src/org/hive2hive/core/model/FileTreeNode.java:53-63 | The new child can write exactly when its parent can. Its full path is the parent's path plus its name. Every old node keeps the parent, kind, name and domain keys that `isShared`, `canWrite` and `getFullPath` read; `hasShared` of an old folder can change, because the new child is among its children. |
| TreeLemmas.AllocChildKeepsKeyed | org.hive2hive.core/src/org/hive2hive/core/model/FileTreeNode.java:56 | The new child inherits the parent's keys, so if every node had domain keys before, every node still has them. |
| TreeLemmas.AllocChildKeepsLinks | org.hive2hive.core/src/org/hive2hive/core/model/FileTreeNode.java:55-61 | Construction (a) keeps every listed child pointing back to its parent and (b) keeps every non-root node listed by its parent, provided the name does not collide. |
| TreeLemmas.AllocChildKeepsWellBuilt | org.hive2hive.core/src/org/hive2hive/core/model/FileTreeNode.java:53-63 | Constructing a child whose name has no separator and no collision keeps the tree well built: every non-root node is listed by its parent and sibling names are distinct up to case. Listed children naming their folder is kept by `TreeLemmas.AllocChildKeepsLinks`. |
| TreeLemmas.CollidingChildSharesPath | org.hive2hive.core/src/org/hive2hive/core/model/FileTreeNode.java:55-61 | A new node constructed with exactly the name of an existing child, when that name has no separator and that child names the parent, is not among the parent's children, yet its full path equals that child's full path. |
| TreeLemmas.AllocRootEffect | org.hive2hive.core/src/org/hive2hive/core/model/FileTreeNode.java:70-76 | The root constructor adds a valid parentless folder with the given keys and no children. |
| TreeLemmas.AllocRootKeepsWellBuilt | org.hive2hive.core/src/org/hive2hive/core/model/FileTreeNode.java:70-76 | A new root keeps the tree well built: every non-root node is listed by its parent and sibling names stay distinct. Listed children naming their folder is kept by `TreeLemmas.AllocRootKeepsInvariants`. |
| TreeLemmas.AllocRootKeepsInvariants | org.hive2hive.core/src/org/hive2hive/core/model/FileTreeNode.java:70-76 | A new root keeps listed children naming their parents. With non-null keys it also keeps every node keyed. |
| FileTreeStore.FileTree.GetChildByName | org.hive2hive.core/src/org/hive2hive/core/model/FileTreeNode.java:125-135 | A null query gives no child. Otherwise the result is a child whose name equals the query without separators, ignoring case. No child is returned exactly when none matches. The store is not changed. |
| Names.RemoveSeparators | org.hive2hive.core/src/org/hive2hive/core/model/FileTreeNode.java:127 | The stripped query contains no separator. Every other character keeps its count. A query without separators is unchanged. |
| Names.RemoveSeparatorsChar | org.hive2hive.core/src/org/hive2hive/core/model/FileTreeNode.java:127 | A separator character is dropped and any other character is kept. |
| Names.RemoveSeparatorsConcat | org.hive2hive.core/src/org/hive2hive/core/model/FileTreeNode.java:127 | Stripping a concatenation is the concatenation of the stripped parts, so the kept characters stay in their order. |
| Names.RemoveSeparatorsIdempotent | org.hive2hive.core/src/org/hive2hive/core/model/FileTreeNode.java:127 | Stripping twice is the same as stripping once. |
| Names.EqualsIgnoreCaseSymmetric | org.hive2hive.core/src/org/hive2hive/core/model/FileTreeNode.java:129 | Case-insensitive name equality is symmetric. |
| Names.EqualsIgnoreCaseTransitive | org.hive2hive.core/src/org/hive2hive/core/model/FileTreeNode.java:129 | Case-insensitive name equality is transitive. |
| TreeModel.MatchIsUnique | org.hive2hive.core/src/org/hive2hive/core/model/FileTreeNode.java:128-131 | When sibling names are distinct up to case, at most one child matches a query. So the unordered iteration has only one possible answer. |
| FileTreeStore.FileTree.AddChild | org.hive2hive.core/src/org/hive2hive/core/model/FileTreeNode.java:106-110 | The store afterwards is `WithChild`: unchanged on a name collision, otherwise the children plus exactly `child`. |
| TreeModel.WithChildEffect | org.hive2hive.core/src/org/hive2hive/core/model/FileTreeNode.java:106-110 | `addChild` of a younger node changes only the folder's children: unchanged on a collision, otherwise plus exactly the child. It keeps the arena valid and every other field. |
| TreeLemmas.CollisionKeepsEarlierChild | org.hive2hive.core/src/org/hive2hive/core/model/FileTreeNode.java:106-110 | When a child `x` already matches the name, adding leaves the arena unchanged. `x` stays the only matching child, so looking up that name still finds `x`. |
| TreeLemmas.WithChildKeepsNamesDistinct | org.hive2hive.core/src/org/hive2hive/core/model/FileTreeNode.java:106-110 | Adding a child whose name has no separator keeps sibling names pairwise distinct up to case. |
| FileTreeStore.FileTree.RemoveChild | org.hive2hive.core/src/org/hive2hive/core/model/FileTreeNode.java:112-117 | Only the children of `n` change. The new children are `child` removed by identity if it is listed, otherwise the child matching its name removed, otherwise the same set. |
| TreeLemmas.RemovalShrinks | org.hive2hive.core/src/org/hive2hive/core/model/FileTreeNode.java:112-117 | Removal never adds a child and takes away at most one. |
| TreeLemmas.RemovalClearsName | org.hive2hive.core/src/org/hive2hive/core/model/FileTreeNode.java:112-117 | When sibling names are distinct up to case and the removed node's name has no separator, no child matches the removed node's name afterwards, and the names stay distinct. |
| FileTreeStore.FileTree.SetDomainKeys | org.hive2hive.core/src/org/hive2hive/core/model/FileTreeNode.java:141-146 | The store afterwards is `WithDomainKeys`: every node of the subtree as it stood at the call has the new keys, and every other node and field is as before. |
| TreeLemmas.CascadeKeepsShape | org.hive2hive.core/src/org/hive2hive/core/model/FileTreeNode.java:141-146 | The cascade keeps the arena valid and changes no field except `domainKeys`. |
| TreeLemmas.CascadeOverridesInner | org.hive2hive.core/src/org/hive2hive/core/model/FileTreeNode.java:141-146 | A cascade from `n` overrides any earlier cascade from a node below `n`, so a nested share is lost. |
| TreeLemmas.CascadeSharesSubtree | org.hive2hive.core/src/org/hive2hive/core/model/FileTreeNode.java:141-174 | Cascade non-null keys that differ from the root's onto a non-root folder, when every listed child names its folder. Afterwards every node of its subtree is shared. |
| TreeLemmas.CascadeSharedAt | org.hive2hive.core/src/org/hive2hive/core/model/FileTreeNode.java:141-174 | The same for one node of the subtree, by induction along its parents. |
| FileTreeStore.CascadeStep | org.hive2hive.core/src/org/hive2hive/core/model/FileTreeNode.java:143-145 | One more child cascaded extends the updated part by exactly that child's subtree. |
| FileTreeStore.CascadeDone | org.hive2hive.core/src/org/hive2hive/core/model/FileTreeNode.java:142-145 | The node itself plus the subtrees of all its children is exactly the subtree of the node. |
| TreeLemmas.RootHasEmptyPath | org.hive2hive.core/src/org/hive2hive/core/model/FileTreeNode.java:201-203 | A node is a root exactly when its full path is empty. |
| TreeLemmas.RootIsNotShared | org.hive2hive.core/src/org/hive2hive/core/model/FileTreeNode.java:156-163 | A root is not shared and is its own root. |
| FileTreeStore.FileTree.IsShared | org.hive2hive.core/src/org/hive2hive/core/model/FileTreeNode.java:160-174 | The walk up to the root gives `Shared`: false for a root; for a folder, whether its keys differ from the root's, or NullPointer when its keys are null; for a file, its parent's answer. |
| TreeModel.Root | org.hive2hive.core/src/org/hive2hive/core/model/FileTreeNode.java:165-168 | The node reached by following parents is a live root, an ancestor of the start node, and no younger than it. |
| FileTreeStore.FileTree.HasShared | org.hive2hive.core/src/org/hive2hive/core/model/FileTreeNode.java:176-186 | The recursive scan gives `SubtreeShared`: false for a file, true for a shared folder, otherwise the disjunction over all children. An exception from `isShared` or from any child propagates. |
| TreeLemmas.SubtreeSharedMeaning | org.hive2hive.core/src/org/hive2hive/core/model/FileTreeNode.java:176-186 | When `hasShared` answers, it is true exactly when a shared folder is reached from the node through folders. |
| TreeModel.CanWrite | org.hive2hive.core/src/org/hive2hive/core/model/FileTreeNode.java:188-194 | `canWrite` is never false. It is true exactly when the node or an ancestor has domain keys; otherwise it dereferences the root's null parent. |
| TreeLemmas.AllKeyedQueriesSucceed | org.hive2hive.core/src/org/hive2hive/core/model/FileTreeNode.java:160-194 | When every node has domain keys, `canWrite` is true, and `isShared` and `hasShared` answer without an exception. |
| TreeLemmas.AllKeyedSharedSucceeds | org.hive2hive.core/src/org/hive2hive/core/model/FileTreeNode.java:160-174 | When every node has domain keys, `isShared` answers without an exception. |
| TreeModel.FullPath | org.hive2hive.core/src/org/hive2hive/core/model/FileTreeNode.java:201-207 | The path is empty exactly at a root. Otherwise its last segment is the node's own name. Its length is at most the node's identifier, since identifiers decrease towards the root. |
| TreeLemmas.RootHasNoProperAncestor | org.hive2hive.core/src/org/hive2hive/core/model/FileTreeNode.java:156-158 | A node is a root exactly when it is its own only ancestor-or-self. |
| TreeLemmas.FullPathExtendsAncestors | org.hive2hive.core/src/org/hive2hive/core/model/FileTreeNode.java:201-207 | An ancestor's full path is a prefix of the node's full path. |
| TreeLemmas.PathsIdentifyNodes | org.hive2hive.core/src/org/hive2hive/core/model/FileTreeNode.java:201-207 | In a well-built tree, two nodes under one root with the same full path are the same node. |
| TreeLemmas.UpwardFrame | org.hive2hive.core/src/org/hive2hive/core/model/FileTreeNode.java:160-207 | `isShared`, `canWrite`, `getFullPath` and the reached root read only parent, kind, name and domain keys. An arena that keeps those fields answers the same. |
| FileTreeStore.FileTree.SetName | org.hive2hive.core/src/org/hive2hive/core/model/FileTreeNode.java:90-92 | Only the node's name changes. |
| FileTreeStore.FileTree.SetParent | org.hive2hive.core/src/org/hive2hive/core/model/FileTreeNode.java:98-100 | Only the node's parent reference changes. No children set is updated. |
| FileTreeStore.FileTree.SetMD5 | org.hive2hive.core/src/org/hive2hive/core/model/FileTreeNode.java:152-154 | Only the node's digest changes. |
| Scenarios.SharingScenario | org.hive2hive.core/src/org/hive2hive/core/model/FileTreeNode.java:141-186 | Build R (keys D0), A, A/f1 and A/B, then give A the keys D1. Afterwards A and B hold D1, A, B and f1 are shared and R has a shared descendant. Before that, f1 could write. |

## Left out
- The getters `getKeyPair`, `isFolder`, `getName`, `getParent`, `getChildren`, `getDomainKeys` and `getMD5` are not methods: they read a field, and the model reads the record field directly. `getChildren` returns the live children set, so a caller can add to it directly and bypass the collision check of `addChild`; such mutation through the returned set is not modelled, which is also why no lemma claims sibling names stay distinct in every reachable state.
- `isRoot` is the predicate `TreeModel.IsRoot`. It carries no contract of its own; its meaning is stated in `TreeLemmas.RootHasNoProperAncestor`, `TreeLemmas.RootHasEmptyPath` and `TreeLemmas.RootIsNotShared`.
- Cryptography is not modelled. A `KeyPair` is an opaque value compared with `==`. The source compares key pairs by identity, and distinct values stand for distinct objects.
- The separator is a single character removed literally. The regular-expression reading of `replaceAll` and the platform lookup of the separator (`FileManager.getFileSep`) are not modelled.
- `equalsIgnoreCase` is modelled with ASCII case folding only; Unicode case folding is not modelled.
- `getFullPath` returns a sequence of name segments. `java.nio.file.Path` joining and normalisation are not modelled: a name that contains a separator or is empty becomes one segment.
- The bytes of the MD5 digest are carried but never hashed.
- `Serializable`, `serialVersionUID` and `toString` are persistence and debug output, so they are not modelled.
- HashSet iteration order is a nondeterministic choice. For `getChildByName`, `TreeModel.MatchIsUnique` shows the choice does not matter while sibling names are distinct.
- Null names are not modelled: a stored name is always a string. The root's name, which the source leaves null, is the empty string. This differs from the source in three places. A root re-parented with `setParent` contributes an empty segment to `getFullPath`, where the source throws a `NullPointerException`. A root passed to `addChild` is looked up by the name `""`, where the source's null query matches nothing, so the model skips the insert when a child named `""` exists. The by-name fallback of `removeChild` for a root removes a child named `""`, where the source removes nothing. The exception that a child with a null name would cause in `getChildByName` is not modelled. A null query to `getChildByName` is modelled (`Option`).
- Null node arguments (a null parent for a child constructor, a null child for `addChild` or `removeChild`) are outside the model: identities are always live nodes, as `requires` says.
- FileTreeStore.FileTree.AddChild: requires the child to be younger than the folder. Attaching an older node, which could close a cycle, is not modelled. Every child the constructors attach is younger.
- FileTreeStore.FileTree.SetParent: requires the new parent to be older than the node, so a parent cycle cannot be formed. Because `setParent` updates no children set, no lemma claims that the links agree after it.
- Concurrent mutation of the children sets is not modelled; the source has no synchronisation.
- `IConsoleMenuCallback` is a stateless one-method callback with nothing to model. It is not part of this model.
