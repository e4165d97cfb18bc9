# UserTree: a verified model of cordless's role-grouped member list

cordless shows the members of a guild in a tree view, `UserTree`
(internal/ui/usertree.go). The root holds one bucket node per *hoisted* role, ordered by
descending role position, and then every member that has no bucket. Each bucket holds the
members whose first role with a bucket is that role. The tree is rebuilt by `LoadGuild`,
then kept up to date in place by `AddOrUpdateMember(s)` and `RemoveMember(s)`.

The project has four modules:

- `Roster` (roster.dfy) holds the state as a value. `Tree` carries the member and role
  indexes (`userNodes`, `roleNodes`), the stored roles, and the tview node state split
  into maps keyed by node number: `children`, `text` (the label) and `selectable`. It
  also carries the view's current node and the next free node number. Each operation is
  a function from the old `Tree` to the new one. `Valid` is the roster invariant:
  - every node sits at most once in all child lists;
  - the root holds the buckets of the hoisted roles, in the stored order, and then only
    member nodes;
  - `roleNodes` indexes the buckets by role ID;
  - buckets hold only member nodes;
  - member nodes are distinct, selectable leaves, and never the root or a bucket.
- `RosterLemmas` (roster_lemmas.dfy) proves what the operations promise about those
  functions.
- `RoleSort` (role_sort.dfy) is the role sort of `loadGuildRoles`.
- `UserTreeView` (user_tree.dfy) is the class `UserTree`. Its fields are the maps and
  sequences above, and its methods update them step by step, as the Go code does. Each
  method that stands for an operation of `UserTree` is proved to leave the state its
  `Roster` function computes; the node helpers `NewNode` and `AddChild` state their fields
  directly, and `FindParent` changes nothing. The public operations are also proved to
  keep `Valid` whenever it held before the call.

The data source's answers to `state.Guild` and `state.Members` are parameters of
`LoadGuild`. `discordgoplus.GetMemberName` and `discordgoplus.SortUserRoles` are not part
of this model. They are the class's function-valued constants `nameOf` and `orderRoles`,
fixed at construction. Lemmas that need the reordering to be a permutation of the
member's role IDs take that as a hypothesis.

## Model

| member | source | states |
|---|---|---|
| UserTreeView.UserTree.constructor | internal/ui/usertree.go:25-43 | A new tree has empty member and role indexes, no roles, a root with no children and no selection, and it satisfies the roster invariant |
| UserTreeView.UserTree.LoadGuild | internal/ui/usertree.go:45-66 | The new state and returned error are those of `Load`: a reset, then the role step, then the member step, then the first-node selection. A failed lookup stops there with its error. On a successful guild lookup the stored roles are the guild's roles, ordered by non-increasing position. The invariant is kept |
| UserTreeView.UserTree.SelectFirstNode | internal/ui/usertree.go:68-75 | With no current node and a non-empty root, the root's first child becomes current. Otherwise nothing changes. The invariant is kept |
| UserTreeView.UserTree.LoadGuildMembers | internal/ui/usertree.go:77-86 | A failed member lookup returns its error and changes nothing. Otherwise it returns no error and adds every member in order. The roles are untouched and the invariant is kept |
| UserTreeView.UserTree.LoadGuildRoles | internal/ui/usertree.go:88-110 | A failed guild lookup returns its error and changes nothing. Otherwise it returns the guild's roles as a permutation with non-increasing positions, and the tree has gained one bucket per hoisted role, in that order (`WithBuckets`) |
| UserTreeView.UserTree.AddRoleBucket | internal/ui/usertree.go:101-106 | One turn of the role loop for a hoisted role: a fresh bucket labelled with the role's name, not selectable, indexed by the role's ID and appended to the root |
| UserTreeView.UserTree.NewNode | internal/ui/usertree.go:121 | A fresh node, the next free number, with no children and the given label and selectable flag; the counter advances |
| UserTreeView.UserTree.AddChild | internal/ui/usertree.go:129-134 | Appends one node to one child list; every other list is unchanged |
| RoleSort.SortByPosition | internal/ui/usertree.go:96-98 | The result is a permutation of the input with non-increasing positions. Nothing is promised about the order of equal positions |
| RoleSort.InsertionPoint | internal/ui/usertree.go:96-98 | In a list with non-increasing positions, the returned index follows every role positioned at least as high and precedes every lower one |
| RoleSort.InsertKeepsOrder | internal/ui/usertree.go:96-98 | Inserting a role at that index keeps the positions non-increasing |
| UserTreeView.UserTree.AddOrUpdateMember | internal/ui/usertree.go:112-135 | The new state is `Added`: a known member's node is relabelled; a new member gets a fresh node in the bucket of its first ordered role that has one, or in the root. The invariant is kept |
| UserTreeView.HeldBucket | internal/ui/usertree.go:126-132 | Returns a bucket exactly when some ordered role ID has one, and then it is the bucket of the first such ID |
| UserTreeView.UserTree.AddOrUpdateMembers | internal/ui/usertree.go:137-141 | The new state is `AddedAll`, one add per member in input order. The roles are untouched and the invariant is kept |
| UserTreeView.UserTree.FindParent | internal/ui/usertree.go:146-148 | The walk's answer for a node (`Parent`): the root if the node is a child of the root, else the first child of the root that has the node among its children, else none |
| UserTreeView.IndexOf | internal/ui/usertree.go:151-157 | Returns the first index holding the node (`FirstIndexOf`) |
| Roster.FirstIndexOf | internal/ui/usertree.go:151-157 | An index holding the node, with no earlier index holding it |
| UserTreeView.UserTree.RemoveMember | internal/ui/usertree.go:143-175 | The new state is `Removed`: the member's node is deleted from the list the walk finds it in. An unknown member or a node not found changes nothing. The invariant is kept |
| UserTreeView.UserTree.RemoveMembers | internal/ui/usertree.go:177-181 | The new state is `RemovedAll`, one removal per member in input order. The invariant is kept |
| Roster.RemoveAt | internal/ui/usertree.go:159-166 | Dropping index k keeps the children before k and shifts those after it down by one; the result is one shorter |
| Roster.Without | internal/ui/usertree.go:150-166 | Removes one occurrence of the node if present, else nothing. The result's elements are the input's, minus one copy of the node |
| Roster.Target | internal/ui/usertree.go:126-134 | A new member's container is an allocated node (that it is the root or a bucket is `TargetIsContainer`) |
| Roster.ParentAmong | internal/ui/usertree.go:146-148 | A found parent is the root, with the node among the searched children, or one of the searched children holding the node. Not found means the node is under none of them |
| Roster.FirstHeld | internal/ui/usertree.go:126-132 | The index of the first role ID that has a bucket; every earlier ID has none |
| Roster.Initial | internal/ui/usertree.go:26-31 | The freshly constructed roster satisfies the invariant |
| RosterLemmas.FirstHeldIs | internal/ui/usertree.go:126-132 | The search stops at index k exactly when k is the first role ID with a bucket |
| RosterLemmas.WithoutAt | internal/ui/usertree.go:150-166 | The three-way deletion at the first index of a node removes exactly that node's first occurrence |
| RosterLemmas.RoleIndexKeys | internal/ui/usertree.go:100-106 | After the role step, `roleNodes` has exactly the IDs of the hoisted roles as keys |
| RosterLemmas.RoleIndexLast | internal/ui/usertree.go:104 | A role ID maps to the bucket of the last hoisted role carrying it |
| RosterLemmas.HoistedCount | internal/ui/usertree.go:100-101 | Each hoisted role gets as many buckets as it occurs; a role that is not hoisted gets none |
| RosterLemmas.HoistedPermutation | internal/ui/usertree.go:96-101 | Reordering the roles only reorders the roles that get buckets |
| RosterLemmas.HoistedNonIncreasing | internal/ui/usertree.go:96-101 | The hoisted roles of a sorted role list are sorted |
| RosterLemmas.BucketsBuilt | internal/ui/usertree.go:100-107 | On an empty root, the role loop builds one fresh, empty, non-selectable bucket per hoisted role, in order, labelled with the role's name and indexed by its ID |
| RosterLemmas.TargetFirstHeld | internal/ui/usertree.go:126-134 | A new member goes into a bucket exactly when one of its ordered role IDs has one, and then into the bucket of the first such ID |
| RosterLemmas.PlacedByHeldRole | internal/ui/usertree.go:124-134 | When the ordered IDs reorder the member's role IDs, the node goes into a bucket exactly when the member holds a role that has one |
| RosterLemmas.AddedNew | internal/ui/usertree.go:121-122 | A new member gets exactly one fresh node, registered under its ID, labelled with its name and selectable. Roles, role index and selection are unchanged |
| RosterLemmas.AddedNewPlacement | internal/ui/usertree.go:126-134 | The new node is appended, as a leaf, to its container, the root or a bucket. Every other child list is unchanged |
| RosterLemmas.AddedExisting | internal/ui/usertree.go:115-119 | For a known member the new state is the old one with only that member's node relabelled; every other label, the indexes, roles, child lists, flags, selection and counter stay the same |
| RosterLemmas.AddedIdempotent | internal/ui/usertree.go:112-135 | Adding the same member twice with the same label equals adding it once |
| RosterLemmas.ValidRelabelled | internal/ui/usertree.go:115-119 | Relabelling a known member keeps the invariant |
| RosterLemmas.ValidAdded | internal/ui/usertree.go:112-135 | Adding or updating a member keeps the invariant |
| RosterLemmas.AddedKeepsBuckets | internal/ui/usertree.go:112-135 | Adding a member leaves the roles, the role index, the selection and the buckets unchanged |
| RosterLemmas.ParentOfMember | internal/ui/usertree.go:146-148 | The walk finds a member node either in a bucket or directly under the root, past the buckets |
| RosterLemmas.RemovedAtIndex | internal/ui/usertree.go:146-167 | Removal deletes the member's node at its first index in the list the walk finds it in. Under the root that index lies past the buckets |
| RosterLemmas.RemovedInTree | internal/ui/usertree.go:146-167 | If the member's node is at index k of the root or a bucket, removal deletes exactly that child. The others keep their relative order, and the member stays registered |
| RosterLemmas.RemovedDetached | internal/ui/usertree.go:143-145 | Removing an unknown member, or one whose node is under neither the root nor a bucket, changes nothing |
| RosterLemmas.ValidRemoved | internal/ui/usertree.go:143-175 | Removing a member keeps the invariant |
| RosterLemmas.RemovedKeepsBuckets | internal/ui/usertree.go:143-175 | Removing a member leaves the roles, the role index, the member index, the selection and the buckets unchanged |
| RosterLemmas.RemovedThenAdded | internal/ui/usertree.go:115-119 | A removed member stays registered, so adding it again puts nothing back into the tree |
| RosterLemmas.AddedAllKeepsBuckets | internal/ui/usertree.go:137-141 | Adding a batch of members keeps the invariant, the roles, the role index, the buckets and the selection |
| RosterLemmas.RemovedAllKeepsBuckets | internal/ui/usertree.go:177-181 | Removing a batch of members keeps the invariant, the roles, the role index, the buckets, the member index and the selection |
| RosterLemmas.AppliedKeepsBuckets | internal/ui/usertree.go:112-181 | Any sequence of add and remove events keeps the invariant, and the number and identity of the buckets never change |
| RosterLemmas.LoadThenEvents | internal/ui/usertree.go:45-181 | After a load, any sequence of add and remove events keeps the invariant and the buckets the load built |
| RosterLemmas.ValidReset | internal/ui/usertree.go:46-50 | The reset at the start of a load leaves an empty roster that satisfies the invariant |
| RosterLemmas.ValidLoad | internal/ui/usertree.go:45-66 | A load from a valid tree always leaves a tree that satisfies the invariant, whatever the lookups answer |
| RosterLemmas.LoadFailures | internal/ui/usertree.go:45-61 | A failed guild lookup returns its error, with the indexes, roles and root all empty. A failed member lookup returns its error, with only the empty buckets under the root and no members |
| RosterLemmas.LoadBuckets | internal/ui/usertree.go:88-107 | After a successful guild lookup, the buckets are fresh nodes, one per hoisted role, ordered by non-increasing position. Each is labelled with its role's name and not selectable, and the role index has exactly the hoisted roles' IDs |
| RosterLemmas.LoadSelection | internal/ui/usertree.go:63-75 | A fully successful load returns no error. It selects the root's first child when nothing was selected and the root has children; otherwise the selection is kept |

## Left out

- The widget setup in `NewUserTree` (internal/ui/usertree.go:33-40: vim bindings from the configuration, top level, cycling, border) is user-interface wiring with no effect on the roster.
- `SetInputCapture` (internal/ui/usertree.go:183-186) only forwards to the widget.
- The lookups `state.Guild` and `state.Members` are not modelled; their answers, a value or an error, are parameters of `LoadGuild`.
- `discordgoplus.GetMemberName` and `discordgoplus.SortUserRoles` are not part of this model. They are opaque function constants of the class. Where a lemma needs the reordering to be a permutation, it assumes so as a hypothesis.
- Go slice aliasing is not modelled: `sort.Slice` sorts the slice shared with the guild, the `append` at line 164 writes into the parent's backing array, and `discordgoplus.SortUserRoles` (line 124) reorders the caller's `member.Roles` in place, while the model passes the IDs to `orderRoles` by value. Child lists and role lists here are values; `UserTree` itself never observes the difference.
- Nil checks on map entries (lines 116 and 128) are not modelled: the model never stores a nil node.
- tview's `Walk` is modelled as a search of the root's children and then their children (`Parent`). Under the roster invariant every node reachable from the root is the root, a bucket or a member leaf: `RootShape` puts the buckets and then member nodes under the root, `BucketsHoldMembers` keeps buckets to member nodes, and `MemberLeaves` gives member nodes no children, so nothing deeper exists.
- tview's `Walk` does not stop at the first match; it only skips the matched node's children. The model deletes the node from the first list the walk finds it in. Under the roster invariant a node occurs in at most one list, so the two agree. On a tree that breaks the invariant, the code could delete the node from several lists, and the model does not capture that.
- Rendering, focus and concurrency are left out: the code is single-threaded, and drawing is the widget's job.
- RoleSort.SortByPosition: insertion sort stands in for `sort.Slice`. It promises only what the Go call does: a permutation with non-increasing positions, and no order among equal positions.

The code differs from a design that would be natural for this component in three places. The model follows the code each time:
- the role sort is not stable;
- `RemoveMember` never deletes the member's ID from `userNodes`, so a later `AddOrUpdateMember` for it only relabels the detached node (`RosterLemmas.RemovedThenAdded`);
- `LoadGuild` resets the tree before the lookups, so a failed lookup leaves an emptied or half-built tree rather than the old one (`RosterLemmas.LoadFailures`).
