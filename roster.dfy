/**
 * The member roster that `UserTree` (internal/ui/usertree.go) keeps, as a value.
 *
 * A tview tree node is an object with a label, a selectable flag and an ordered list
 * of children. Here a node is a number handed out by a counter (`next`), the root is
 * node 0, and the nodes' state lives in three maps keyed by node. Every operation of
 * `UserTree` is a function from the old `Tree` to the new one; the class in
 * user_tree.dfy runs the same steps imperatively and is proved to agree with them.
 */
module Roster {
  import opened Wrappers

  type Node = int

  /** The root node; it is created with the tree and never becomes anyone's child. */
  const Root: Node := 0

  /** A guild role as the data source reports it. */
  datatype Role = Role(id: string, name: string, position: int, hoist: bool)

  /** A guild member as the data source reports it; the name fields only feed the label. */
  datatype Member = Member(userId: string, nick: string, username: string, roles: seq<string>)

  /** The error the data source returns when a guild or its members cannot be looked up. */
  datatype FetchError = FetchError(message: string)

  /** The whole state of a `UserTree`. */
  datatype Tree = Tree(
    userNodes: map<string, Node>,     // member ID -> its node
    roleNodes: map<string, Node>,     // role ID -> its bucket node
    roles: seq<Role>,                 // the guild's roles, as sorted by the last load
    children: map<Node, seq<Node>>,   // each allocated node's ordered children
    text: map<Node, string>,          // each node's label
    selectable: map<Node, bool>,      // whether the view lets the cursor stop on a node
    current: Option<Node>,            // the tree view's current (selected) node
    next: Node)                       // the next node to allocate

  /** The outcome of `LoadGuild`: the new tree and the error it returns, if any. */
  datatype Loaded = Loaded(tree: Tree, err: Option<FetchError>)

  // ----------------------------------------------------------------------------------
  // Invariants

  /** Every map lookup the operations make is defined, and nodes at or past `next` are unused. */
  ghost predicate Wf(t: Tree) {
    && Root in t.children
    && (forall a :: a in t.children ==> a < t.next)
    && (forall a, i :: a in t.children && 0 <= i < |t.children[a]| ==>
          t.children[a][i] in t.children && t.children[a][i] != Root)
    && (forall k :: k in t.roleNodes ==> t.roleNodes[k] in t.children)
    && (forall u :: u in t.userNodes ==> t.userNodes[u] in t.children)
  }

  /** No node occurs twice among all child lists: each node has at most one parent, once. */
  ghost predicate UniquePlacement(ch: map<Node, seq<Node>>) {
    forall a, b, i, j ::
      a in ch && b in ch && 0 <= i < |ch[a]| && 0 <= j < |ch[b]| && ch[a][i] == ch[b][j]
      ==> a == b && i == j
  }

  ghost predicate IsMemberNode(t: Tree, n: Node) {
    n in t.userNodes.Values
  }

  /** Node `b` is the bucket of role `r`: labelled with its name and not selectable. */
  ghost predicate IsBucketOf(t: Tree, b: Node, r: Role) {
    b in t.text && t.text[b] == r.name && b in t.selectable && !t.selectable[b]
  }

  /** `roleNodes` indexes the first |hs| children of the root by the IDs of `hs`, the hoisted roles. */
  ghost predicate BucketsIndexed(t: Tree)
    requires Wf(t) && |Hoisted(t.roles)| <= |t.children[Root]|
  {
    var hs, rc := Hoisted(t.roles), t.children[Root];
    t.roleNodes == RoleIndex(hs, rc[..|hs|])
  }

  /** The first |hs| children of the root are the buckets of `hs`, in the stored order. */
  ghost predicate BucketsLabelled(t: Tree)
    requires Wf(t)
  {
    var hs, rc := Hoisted(t.roles), t.children[Root];
    forall i :: 0 <= i < |hs| && i < |rc| ==> IsBucketOf(t, rc[i], hs[i])
  }

  /** Past the buckets the root holds only member nodes. */
  ghost predicate TailMembers(t: Tree)
    requires Wf(t)
  {
    var hs, rc := Hoisted(t.roles), t.children[Root];
    forall i :: |hs| <= i < |rc| ==> IsMemberNode(t, rc[i])
  }

  /**
   * The root's children are one bucket per role of `hs`, the hoisted roles in the stored
   * order, followed only by member nodes, and `roleNodes` indexes the buckets by role ID.
   */
  ghost predicate RootShape(t: Tree)
    requires Wf(t)
  {
    && |Hoisted(t.roles)| <= |t.children[Root]|
    && BucketsIndexed(t)
    && BucketsLabelled(t)
    && TailMembers(t)
  }

  /** Buckets hold only member nodes. */
  ghost predicate BucketsHoldMembers(t: Tree)
    requires Wf(t)
  {
    var hs, rc := Hoisted(t.roles), t.children[Root];
    forall i, j :: 0 <= i < |hs| && i < |rc| && 0 <= j < |t.children[rc[i]]| ==>
      IsMemberNode(t, t.children[rc[i]][j])
  }

  /** Member nodes are selectable leaves other than the root. */
  ghost predicate MemberLeaves(t: Tree)
    requires Wf(t)
  {
    forall u :: u in t.userNodes ==>
      && t.userNodes[u] != Root
      && t.children[t.userNodes[u]] == []
      && t.userNodes[u] in t.selectable && t.selectable[t.userNodes[u]]
  }

  /** No member node is a bucket. */
  ghost predicate MembersApart(t: Tree)
    requires Wf(t)
  {
    var hs, rc := Hoisted(t.roles), t.children[Root];
    forall u, i :: u in t.userNodes && 0 <= i < |hs| && i < |rc| ==> t.userNodes[u] != rc[i]
  }

  /** Each member ID has a node of its own. */
  ghost predicate MembersDistinct(t: Tree) {
    forall u, v :: u in t.userNodes && v in t.userNodes && u != v ==> t.userNodes[u] != t.userNodes[v]
  }

  /**
   * Member nodes are selectable leaves, one per member ID, and never the root or a
   * bucket.
   */
  ghost predicate MemberNodesOk(t: Tree)
    requires Wf(t)
  {
    MemberLeaves(t) && MembersApart(t) && MembersDistinct(t)
  }

  /** The roster invariant that every operation of `UserTree` keeps. */
  ghost predicate Valid(t: Tree) {
    && Wf(t)
    && UniquePlacement(t.children)
    && RootShape(t)
    && BucketsHoldMembers(t)
    && MemberNodesOk(t)
  }

  /** Positions never increase along `rs`. */
  ghost predicate NonIncreasing(rs: seq<Role>) {
    forall i, j :: 0 <= i < j < |rs| ==> rs[i].position >= rs[j].position
  }

  // ----------------------------------------------------------------------------------
  // Helpers on sequences and maps

  /** The roles with `Hoist` set, in their order in `rs`. */
  function Hoisted(rs: seq<Role>): (hs: seq<Role>)
    ensures |hs| <= |rs|
    ensures forall r :: r in hs ==> r in rs && r.hoist
  {
    if |rs| == 0 then []
    else Hoisted(rs[..|rs| - 1]) + (if rs[|rs| - 1].hoist then [rs[|rs| - 1]] else [])
  }

  /**
   * The role-ID index built by writing `roleNodes[hs[i].id] := bs[i]` for i = 0, 1, ...:
   * its keys are the IDs of `hs`, and an ID maps to the bucket of its last role.
   */
  function RoleIndex(hs: seq<Role>, bs: seq<Node>): (rn: map<string, Node>)
    requires |hs| == |bs|
    ensures forall k :: k in rn ==> rn[k] in bs
  {
    if |hs| == 0 then map[]
    else RoleIndex(hs[..|hs| - 1], bs[..|bs| - 1])[hs[|hs| - 1].id := bs[|bs| - 1]]
  }

  /** The index of the first ID in `ids` that has a bucket, or |ids| if none has. */
  function FirstHeld(ids: seq<string>, rn: map<string, Node>): (k: nat)
    ensures k <= |ids|
    ensures forall j :: 0 <= j < k ==> ids[j] !in rn
    ensures k < |ids| ==> ids[k] in rn
  {
    if |ids| == 0 then 0
    else if ids[0] in rn then 0
    else 1 + FirstHeld(ids[1..], rn)
  }

  /** `s` with its first occurrence of `x` taken out (all of `s` if there is none). */
  function Without(s: seq<Node>, x: Node): (r: seq<Node>)
    ensures x in s ==> |r| == |s| - 1
    ensures x !in s ==> r == s
    ensures multiset(r) == multiset(s) - multiset{x}
    ensures forall y :: y in r ==> y in s
  {
    if |s| == 0 then []
    else
      assert s == [s[0]] + s[1..];
      if s[0] == x then s[1..] else [s[0]] + Without(s[1..], x)
  }

  /** The first index of `x` in `s`: where the search at internal/ui/usertree.go:151-157 stops. */
  function FirstIndexOf(s: seq<Node>, x: Node): (k: nat)
    requires x in s
    ensures k < |s| && s[k] == x
    ensures forall j :: 0 <= j < k ==> s[j] != x
  {
    if s[0] == x then 0 else 1 + FirstIndexOf(s[1..], x)
  }

  /**
   * The deletion at internal/ui/usertree.go:159-166: drop index `k`, by re-slicing when
   * it is the first or the last child and by splicing otherwise.
   */
  function RemoveAt(s: seq<Node>, k: nat): (r: seq<Node>)
    requires k < |s|
    ensures |r| == |s| - 1
    ensures forall j :: 0 <= j < k ==> r[j] == s[j]
    ensures forall j :: k <= j < |r| ==> r[j] == s[j + 1]
  {
    if k == 0 then s[1..]
    else if k == |s| - 1 then s[..|s| - 1]
    else s[0..k] + s[k + 1..]
  }

  /** The buckets: the first |Hoisted(roles)| children of the root. */
  function Buckets(t: Tree): (bs: seq<Node>)
    requires Wf(t) && |Hoisted(t.roles)| <= |t.children[Root]|
    ensures |bs| == |Hoisted(t.roles)|
  {
    t.children[Root][..|Hoisted(t.roles)|]
  }

  // ----------------------------------------------------------------------------------
  // The operations

  /** The state `NewUserTree` sets up: empty maps and a root with no children. */
  function Initial(): (t: Tree)
    ensures Valid(t)
  {
    Tree(map[], map[], [], map[Root := []], map[Root := ""], map[Root := true], None, 1)
  }

  /** Lines 46-50 of `LoadGuild`: fresh maps, no roles, and the root's children cleared. */
  function Reset(t: Tree): (r: Tree)
    requires Wf(t)
    ensures Wf(r)
  {
    t.(userNodes := map[], roleNodes := map[], roles := [], children := t.children[Root := []])
  }

  /** One turn of the loop in `loadGuildRoles` for a hoisted role: a new bucket at the root's end. */
  function AddBucket(t: Tree, r: Role): (u: Tree)
    requires Wf(t)
    ensures Wf(u)
  {
    var b := t.next;
    t.(roleNodes := t.roleNodes[r.id := b],
       children := t.children[b := []][Root := t.children[Root] + [b]],
       text := t.text[b := r.name],
       selectable := t.selectable[b := false],
       next := b + 1)
  }

  /** The loop of `loadGuildRoles` over the already sorted roles `rs`. */
  function WithBuckets(t: Tree, rs: seq<Role>): (u: Tree)
    requires Wf(t)
    ensures Wf(u)
  {
    if |rs| == 0 then t
    else
      var u := WithBuckets(t, rs[..|rs| - 1]);
      if rs[|rs| - 1].hoist then AddBucket(u, rs[|rs| - 1]) else u
  }

  /** The container a new member's node goes to, given its ordered role IDs. */
  function Target(t: Tree, ordered: seq<string>): (c: Node)
    requires Wf(t)
    ensures c in t.children
  {
    var k := FirstHeld(ordered, t.roleNodes);
    if k < |ordered| then t.roleNodes[ordered[k]] else Root
  }

  /**
   * `AddOrUpdateMember`, with `name` the member's label and `ordered` its role IDs after
   * the reordering: relabel a known member's node, or place a new node at the end of
   * the bucket of the first role that has one, or of the root.
   */
  function Added(t: Tree, m: Member, name: string, ordered: seq<string>): (r: Tree)
    requires Wf(t)
    ensures Wf(r)
  {
    if m.userId in t.userNodes then
      t.(text := t.text[t.userNodes[m.userId] := name])
    else
      var n, c := t.next, Target(t, ordered);
      t.(userNodes := t.userNodes[m.userId := n],
         children := t.children[n := []][c := t.children[c] + [n]],
         text := t.text[n := name],
         selectable := t.selectable[n := true],
         next := n + 1)
  }

  /**
   * The walk of `RemoveMember` over root's children `cs`, in the walk's order: a child
   * of the root, then that child's own children, then the next child of the root.
   */
  function ParentAmong(t: Tree, n: Node, cs: seq<Node>): (p: Option<Node>)
    requires Wf(t)
    requires forall c :: c in cs ==> c in t.children
    ensures p.Some? ==> (p.value == Root && n in cs) || (p.value in cs && p.value in t.children && n in t.children[p.value])
    ensures p.None? ==> n !in cs && forall c :: c in cs ==> n !in t.children[c]
  {
    if |cs| == 0 then None
    else if cs[0] == n then Some(Root)
    else if n in t.children[cs[0]] then Some(cs[0])
    else ParentAmong(t, n, cs[1..])
  }

  /** The container the walk from the root finds `n` in, if it finds it. */
  function Parent(t: Tree, n: Node): (p: Option<Node>)
    requires Wf(t)
    ensures p.Some? ==> p.value in t.children && n in t.children[p.value]
  {
    ParentAmong(t, n, t.children[Root])
  }

  /** `RemoveMember`: take the member's node out of the container holding it. */
  function Removed(t: Tree, m: Member): (r: Tree)
    requires Wf(t)
    ensures Wf(r)
  {
    if m.userId !in t.userNodes then t
    else
      var n := t.userNodes[m.userId];
      match Parent(t, n)
      case None => t
      case Some(p) =>
        var w := Without(t.children[p], n);
        assert forall i :: 0 <= i < |w| ==> w[i] in t.children[p];
        t.(children := t.children[p := w])
  }

  /** `AddOrUpdateMembers`: `AddOrUpdateMember` for each member, in order. */
  function AddedAll(t: Tree, ms: seq<Member>, nameOf: Member -> string,
                    order: (seq<string>, seq<Role>) -> seq<string>): (r: Tree)
    requires Wf(t)
    ensures Wf(r)
  {
    if |ms| == 0 then t
    else
      var u, m := AddedAll(t, ms[..|ms| - 1], nameOf, order), ms[|ms| - 1];
      Added(u, m, nameOf(m), order(m.roles, u.roles))
  }

  /** `RemoveMembers`: `RemoveMember` for each member, in order. */
  function RemovedAll(t: Tree, ms: seq<Member>): (r: Tree)
    requires Wf(t)
    ensures Wf(r)
  {
    if |ms| == 0 then t else Removed(RemovedAll(t, ms[..|ms| - 1]), ms[|ms| - 1])
  }

  /** One membership event delivered to the tree after a load. */
  datatype Event = AddOrUpdate(member: Member) | Remove(member: Member)

  /** The events `es` applied in order, as the caller's calls to the two single-member operations. */
  function Applied(t: Tree, es: seq<Event>, nameOf: Member -> string,
                   order: (seq<string>, seq<Role>) -> seq<string>): (r: Tree)
    requires Wf(t)
    ensures Wf(r)
  {
    if |es| == 0 then t
    else
      var u := Applied(t, es[..|es| - 1], nameOf, order);
      match es[|es| - 1]
      case AddOrUpdate(m) => Added(u, m, nameOf(m), order(m.roles, u.roles))
      case Remove(m) => Removed(u, m)
  }

  /** `selectFirstNode`: with no current node, select the root's first child, if any. */
  function SelectFirst(t: Tree): (r: Tree)
    requires Wf(t)
  {
    if t.current.None? && |t.children[Root]| > 0 then t.(current := Some(t.children[Root][0]))
    else t
  }

  /**
   * `LoadGuild`, given what the data source answers for the guild and for its members,
   * and `sorted`, the guild's roles as the sort left them.
   */
  function Load(t: Tree, guild: Result<seq<Role>, FetchError>,
                members: Result<seq<Member>, FetchError>, sorted: seq<Role>,
                nameOf: Member -> string, order: (seq<string>, seq<Role>) -> seq<string>): (r: Loaded)
    requires Wf(t)
    ensures Wf(r.tree)
  {
    var empty := Reset(t);
    if guild.Failure? then Loaded(empty, Some(guild.error))
    else
      var withRoles := WithBuckets(empty, sorted).(roles := sorted);
      if members.Failure? then Loaded(withRoles, Some(members.error))
      else Loaded(SelectFirst(AddedAll(withRoles, members.value, nameOf, order)), None)
  }
}
