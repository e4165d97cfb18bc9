/**
 * `UserTree` (internal/ui/usertree.go): the member list of a guild, grouped under one
 * bucket node per hoisted role, updated in place as members join, change or leave.
 *
 * The tview nodes' children, labels and selectable flags are maps held by the class, and
 * the view's current node is the field `current`. Every method asks only that the tree
 * be well formed (`Roster.Wf`), is proved to leave the state that the matching function
 * of module Roster computes, and, where the operation is public, to keep the roster
 * invariant `Roster.Valid` whenever it held before the call.
 */
module UserTreeView {
  import opened Wrappers
  import opened Roster
  import opened RosterLemmas
  import opened RoleSort

  /** The index of the first `n` in `cs`: the search at internal/ui/usertree.go:151-157. */
  method IndexOf(cs: seq<Node>, n: Node) returns (k: nat)
    requires n in cs
    ensures k == FirstIndexOf(cs, n)
  {
    k := 0;
    while cs[k] != n
      invariant k < |cs| && n in cs[k..]
      invariant forall j :: 0 <= j < k ==> cs[j] != n
      decreases |cs| - k
    {
      k := k + 1;
    }
  }

  /**
   * The loop at internal/ui/usertree.go:126-132: the bucket of the first of the member's
   * ordered role IDs that has one, if any does.
   */
  method HeldBucket(ids: seq<string>, roleNodes: map<string, Node>) returns (bucket: Option<Node>)
    ensures bucket.Some? <==> exists i :: 0 <= i < |ids| && ids[i] in roleNodes
    ensures bucket.Some? ==> FirstHeld(ids, roleNodes) < |ids| && bucket.value == roleNodes[ids[FirstHeld(ids, roleNodes)]]
  {
    var i := 0;
    while i < |ids|
      invariant 0 <= i <= |ids|
      invariant forall j :: 0 <= j < i ==> ids[j] !in roleNodes
    {
      if ids[i] in roleNodes {
        FirstHeldIs(ids, roleNodes, i);
        return Some(roleNodes[ids[i]]);
      }
      i := i + 1;
    }
    FirstHeldIs(ids, roleNodes, i);
    return None;
  }

  class UserTree {
    var userNodes: map<string, Node>
    var roleNodes: map<string, Node>
    var roles: seq<Role>
    var children: map<Node, seq<Node>>
    var text: map<Node, string>
    var selectable: map<Node, bool>
    var current: Option<Node>
    var next: Node

    /** The member's display name; `discordgoplus.GetMemberName` is not part of this model. */
    const nameOf: Member -> string
    /** The member's role IDs in priority order; `discordgoplus.SortUserRoles` is not part of this model. */
    const orderRoles: (seq<string>, seq<Role>) -> seq<string>

    ghost function State(): Tree
      reads this
    {
      Tree(userNodes, roleNodes, roles, children, text, selectable, current, next)
    }

    ghost predicate Valid()
      reads this
    {
      Roster.Valid(State())
    }

    /** `NewUserTree`, without the widget set-up: empty maps and a root with no children. */
    constructor (nameOf: Member -> string, orderRoles: (seq<string>, seq<Role>) -> seq<string>)
      ensures Valid() && State() == Initial()
      ensures this.nameOf == nameOf && this.orderRoles == orderRoles
    {
      this.nameOf := nameOf;
      this.orderRoles := orderRoles;
      userNodes := map[];
      roleNodes := map[];
      roles := [];
      children := map[Root := []];
      text := map[Root := ""];
      selectable := map[Root := true];
      current := None;
      next := 1;
    }

    /**
     * Rebuilds the tree from what the data source answers for the guild (`guild`, as
     * `state.Guild` would) and for its members (`members`, as `state.Members` would).
     */
    method LoadGuild(guild: Result<seq<Role>, FetchError>, members: Result<seq<Member>, FetchError>)
      returns (err: Option<FetchError>)
      requires Wf(State())
      modifies this
      ensures guild.Success? ==> NonIncreasing(roles) && multiset(roles) == multiset(guild.value)
      ensures Loaded(State(), err) == Load(old(State()), guild, members, roles, nameOf, orderRoles)
      ensures old(Valid()) ==> Valid()
    {
      userNodes := map[];
      roleNodes := map[];
      roles := [];
      children := children[Root := []];
      ghost var empty := State();
      assert empty == Reset(old(State()));

      var guildRoles := LoadGuildRoles(guild);
      if guildRoles.Failure? {
        err := Some(guildRoles.error);
      } else {
        roles := guildRoles.value;
        ghost var withRoles := State();
        assert withRoles == WithBuckets(empty, guildRoles.value).(roles := guildRoles.value);
        err := LoadGuildMembers(members);
        if err.None? {
          SelectFirstNode();
        }
      }
      if old(Valid()) {
        ValidLoad(old(State()), guild, members, roles, nameOf, orderRoles);
      }
    }

    /** `tview.NewTreeNode` with `SetSelectable`: a fresh node labelled `name`, with no children. */
    method NewNode(name: string, canSelect: bool) returns (n: Node)
      modifies this`next, this`children, this`text, this`selectable
      ensures n == old(next) && next == n + 1
      ensures children == old(children)[n := []]
      ensures text == old(text)[n := name] && selectable == old(selectable)[n := canSelect]
    {
      n := next;
      next := next + 1;
      children := children[n := []];
      text := text[n := name];
      selectable := selectable[n := canSelect];
    }

    /** `AddChild` on node `p`: appends `c` to `p`'s children. */
    method AddChild(p: Node, c: Node)
      requires p in children
      modifies this`children
      ensures children == old(children)[p := old(children)[p] + [c]]
    {
      children := children[p := children[p] + [c]];
    }

    /** Selects the root's first child when the view has no current node. */
    method SelectFirstNode()
      requires Wf(State())
      modifies this`current
      ensures State() == SelectFirst(old(State()))
      ensures old(Valid()) ==> Valid()
    {
      if current.None? {
        var rootChildren := children[Root];
        if |rootChildren| > 0 {
          current := Some(rootChildren[0]);
        }
      }
      if old(Valid()) {
        ValidSelectFirst(old(State()));
      }
    }

    /** Adds the guild's members, or returns the data source's error. */
    method LoadGuildMembers(members: Result<seq<Member>, FetchError>) returns (err: Option<FetchError>)
      requires Wf(State())
      modifies this
      ensures roles == old(roles)
      ensures old(Valid()) ==> Valid()
      ensures members.Failure? ==> err == Some(members.error) && State() == old(State())
      ensures members.Success? ==> err == None && State() == AddedAll(old(State()), members.value, nameOf, orderRoles)
    {
      if members.Failure? {
        return Some(members.error);
      }
      AddOrUpdateMembers(members.value);
      return None;
    }

    /**
     * Sorts the guild's roles by descending position and appends one non-selectable
     * bucket per hoisted role to the root, indexing it by role ID; returns the sorted
     * roles, or the data source's error.
     */
    method LoadGuildRoles(guild: Result<seq<Role>, FetchError>) returns (r: Result<seq<Role>, FetchError>)
      requires Wf(State())
      modifies this
      ensures guild.Failure? ==> r == Failure(guild.error) && State() == old(State())
      ensures guild.Success? ==>
        && r.Success? && NonIncreasing(r.value) && multiset(r.value) == multiset(guild.value)
        && State() == WithBuckets(old(State()), r.value)
    {
      if guild.Failure? {
        return Failure(guild.error);
      }
      var guildRoles := SortByPosition(guild.value);
      var i := 0;
      while i < |guildRoles|
        invariant 0 <= i <= |guildRoles|
        invariant State() == WithBuckets(old(State()), guildRoles[..i])
      {
        var role := guildRoles[i];
        assert guildRoles[..i + 1][..i] == guildRoles[..i];
        if role.hoist {
          AddRoleBucket(role);
        }
        i := i + 1;
      }
      assert guildRoles[..i] == guildRoles;
      return Success(guildRoles);
    }

    /** One turn of the role loop for a hoisted role: a new bucket at the end of the root. */
    method AddRoleBucket(role: Role)
      requires Wf(State())
      modifies this
      ensures State() == AddBucket(old(State()), role)
    {
      var roleNode := NewNode(role.name, false);
      roleNodes := roleNodes[role.id := roleNode];
      assert roleNode != Root && children[Root] == old(children)[Root];
      AddChild(Root, roleNode);
    }

    /**
     * Relabels the member's node if the member is known; otherwise creates a node for it
     * and appends it to the bucket of its first role that has one, or to the root.
     */
    method AddOrUpdateMember(m: Member)
      requires Wf(State())
      modifies this
      ensures State() == Added(old(State()), m, nameOf(m), orderRoles(m.roles, old(roles)))
      ensures old(Valid()) ==> Valid()
    {
      var nameToUse := nameOf(m);
      if m.userId in userNodes {
        text := text[userNodes[m.userId] := nameToUse];
        if old(Valid()) {
          ValidAdded(old(State()), m, nameToUse, orderRoles(m.roles, roles));
        }
        return;
      }

      var userNode := NewNode(nameToUse, true);
      userNodes := userNodes[m.userId := userNode];

      var memberRoles := orderRoles(m.roles, roles);
      var bucket := HeldBucket(memberRoles, roleNodes);
      var c := if bucket.Some? then bucket.value else Root;
      assert c == Target(old(State()), memberRoles) && c != userNode;
      assert children[c] == old(children)[c];
      AddChild(c, userNode);
      AddedNewFields(old(State()), m, nameToUse, memberRoles);
      if old(Valid()) {
        ValidAdded(old(State()), m, nameToUse, memberRoles);
      }
    }

    /** `AddOrUpdateMember` for each member, in order. */
    method AddOrUpdateMembers(ms: seq<Member>)
      requires Wf(State())
      modifies this
      ensures State() == AddedAll(old(State()), ms, nameOf, orderRoles)
      ensures roles == old(roles)
      ensures old(Valid()) ==> Valid()
    {
      for i := 0 to |ms|
        invariant State() == AddedAll(old(State()), ms[..i], nameOf, orderRoles)
        invariant roles == old(roles)
      {
        assert ms[..i + 1][..i] == ms[..i];
        AddOrUpdateMember(ms[i]);
      }
      assert ms[..|ms|] == ms;
      if old(Valid()) {
        AddedAllKeepsBuckets(old(State()), ms, nameOf, orderRoles);
      }
    }

    /**
     * The container the walk from the root meets `n` in: the root when `n` is one of its
     * children, else the first child of the root that has `n` among its own children.
     */
    method FindParent(n: Node) returns (p: Option<Node>)
      requires Wf(State())
      ensures p == Parent(State(), n)
    {
      var rootChildren := children[Root];
      var i := 0;
      while i < |rootChildren|
        invariant 0 <= i <= |rootChildren|
        invariant Parent(State(), n) == ParentAmong(State(), n, rootChildren[i..])
      {
        assert rootChildren[i..][1..] == rootChildren[i + 1..];
        var node := rootChildren[i];
        if node == n {
          return Some(Root);
        }
        if n in children[node] {
          return Some(node);
        }
        i := i + 1;
      }
      return None;
    }

    /**
     * Deletes the member's node from the container holding it, keeping the order of the
     * other children; does nothing when the member is unknown or its node is not in the
     * tree. The member stays registered.
     */
    method RemoveMember(m: Member)
      requires Wf(State())
      modifies this
      ensures State() == Removed(old(State()), m)
      ensures old(Valid()) ==> Valid()
    {
      if m.userId in userNodes {
        var userNode := userNodes[m.userId];
        var parent := FindParent(userNode);
        if parent.Some? {
          var p := parent.value;
          var siblings := children[p];
          if |siblings| == 1 {
            assert siblings == [userNode];
            children := children[p := []];
          } else {
            var indexToDelete := IndexOf(siblings, userNode);
            WithoutAt(siblings, userNode, indexToDelete);
            children := children[p := RemoveAt(siblings, indexToDelete)];
          }
        }
      }
      if old(Valid()) {
        ValidRemoved(old(State()), m);
      }
    }

    /** `RemoveMember` for each member, in order. */
    method RemoveMembers(ms: seq<Member>)
      requires Wf(State())
      modifies this
      ensures State() == RemovedAll(old(State()), ms)
      ensures old(Valid()) ==> Valid()
    {
      for i := 0 to |ms|
        invariant State() == RemovedAll(old(State()), ms[..i])
      {
        assert ms[..i + 1][..i] == ms[..i];
        RemoveMember(ms[i]);
      }
      assert ms[..|ms|] == ms;
      if old(Valid()) {
        RemovedAllKeepsBuckets(old(State()), ms);
      }
    }
  }
}
