/** What the roster operations promise, proved about the functions of module Roster. */
module RosterLemmas {
  import opened Wrappers
  import opened Roster

  // ----------------------------------------------------------------------------------
  // Role index and hoisted roles

  /** The role index has exactly the IDs of the hoisted roles as keys. */
  lemma {:induction false} RoleIndexKeys(hs: seq<Role>, bs: seq<Node>)
    requires |hs| == |bs|
    ensures forall k :: k in RoleIndex(hs, bs) <==> exists i :: 0 <= i < |hs| && hs[i].id == k
  {
    if |hs| > 0 {
      var n := |hs|;
      RoleIndexKeys(hs[..n - 1], bs[..n - 1]);
      forall k ensures k in RoleIndex(hs, bs) <==> exists i :: 0 <= i < n && hs[i].id == k {
        if k in RoleIndex(hs[..n - 1], bs[..n - 1]) {
          var i :| 0 <= i < n - 1 && hs[..n - 1][i].id == k;
          assert hs[i].id == k;
        }
        if exists i :: 0 <= i < n && hs[i].id == k {
          var i :| 0 <= i < n && hs[i].id == k;
          if i < n - 1 {
            assert hs[..n - 1][i].id == k;
          }
        }
      }
    }
  }

  /** A role ID is indexed to the bucket of the last role carrying it. */
  lemma {:induction false} RoleIndexLast(hs: seq<Role>, bs: seq<Node>, i: nat)
    requires |hs| == |bs| && i < |hs|
    requires forall j :: i < j < |hs| ==> hs[j].id != hs[i].id
    ensures hs[i].id in RoleIndex(hs, bs) && RoleIndex(hs, bs)[hs[i].id] == bs[i]
  {
    var n := |hs|;
    if i < n - 1 {
      RoleIndexLast(hs[..n - 1], bs[..n - 1], i);
    }
  }

  /** Keeping only the hoisted roles counts each hoisted role as often as before, and others not at all. */
  lemma {:induction false} HoistedCount(rs: seq<Role>, r: Role)
    ensures multiset(Hoisted(rs))[r] == if r.hoist then multiset(rs)[r] else 0
  {
    if |rs| > 0 {
      var n := |rs|;
      HoistedCount(rs[..n - 1], r);
      assert rs == rs[..n - 1] + [rs[n - 1]];
    }
  }

  /** Reordering the roles reorders the hoisted roles: the same roles get buckets. */
  lemma HoistedPermutation(rs: seq<Role>, ts: seq<Role>)
    requires multiset(rs) == multiset(ts)
    ensures multiset(Hoisted(rs)) == multiset(Hoisted(ts))
  {
    forall r ensures multiset(Hoisted(rs))[r] == multiset(Hoisted(ts))[r] {
      HoistedCount(rs, r);
      HoistedCount(ts, r);
    }
  }

  /** Filtering keeps the order: the hoisted roles of a sorted list are sorted. */
  lemma {:induction false} HoistedNonIncreasing(rs: seq<Role>)
    requires NonIncreasing(rs)
    ensures NonIncreasing(Hoisted(rs))
  {
    if |rs| > 0 {
      var n := |rs|;
      var pre, last := rs[..n - 1], rs[n - 1];
      var h := Hoisted(pre);
      HoistedNonIncreasing(pre);
      if last.hoist {
        var hs := h + [last];
        forall i, j | 0 <= i < j < |hs| ensures hs[i].position >= hs[j].position {
          assert hs[i] == h[i];
          if j == |h| {
            assert h[i] in pre;
            var a :| 0 <= a < n - 1 && pre[a] == h[i];
            assert rs[a] == h[i];
          } else {
            assert hs[j] == h[j];
          }
        }
        assert Hoisted(rs) == hs;
      } else {
        assert Hoisted(rs) == h;
      }
    }
  }


  // ----------------------------------------------------------------------------------
  // Deleting from a child list

  /** `FirstHeld` is the index the search for a held role stops at. */
  lemma FirstHeldIs(ids: seq<string>, rn: map<string, Node>, k: nat)
    requires k <= |ids| && (k < |ids| ==> ids[k] in rn)
    requires forall j :: 0 <= j < k ==> ids[j] !in rn
    ensures FirstHeld(ids, rn) == k
  {
  }

  /** The three-way deletion of the source agrees with removing the first occurrence. */
  lemma {:induction false} WithoutAt(s: seq<Node>, x: Node, k: nat)
    requires k < |s| && s[k] == x
    requires forall j :: 0 <= j < k ==> s[j] != x
    ensures Without(s, x) == RemoveAt(s, k)
  {
    if k > 0 {
      WithoutAt(s[1..], x, k - 1);
      var w, r := Without(s, x), RemoveAt(s, k);
      assert w == [s[0]] + RemoveAt(s[1..], k - 1);
      assert |w| == |r|;
      forall j | 0 <= j < |w| ensures w[j] == r[j] {
        if j > 0 {
          assert w[j] == RemoveAt(s[1..], k - 1)[j - 1];
        }
      }
    }
  }

  // ----------------------------------------------------------------------------------
  // Unique placement under the three ways a child list changes

  lemma UniqueAfterClear(ch: map<Node, seq<Node>>, c: Node)
    requires UniquePlacement(ch)
    ensures UniquePlacement(ch[c := []])
  {
  }

  lemma UniqueAfterAppend(ch: map<Node, seq<Node>>, c: Node, n: Node)
    requires UniquePlacement(ch) && c in ch
    requires forall a, i :: a in ch && 0 <= i < |ch[a]| ==> ch[a][i] != n
    ensures UniquePlacement(ch[c := ch[c] + [n]])
  {
    var ch' := ch[c := ch[c] + [n]];
    assert forall a, i :: a in ch' && 0 <= i < |ch'[a]| ==>
      ch'[a][i] == if a == c && i == |ch[c]| then n else ch[a][i];
  }

  lemma UniqueAfterRemoveAt(ch: map<Node, seq<Node>>, p: Node, k: nat)
    requires UniquePlacement(ch) && p in ch && k < |ch[p]|
    ensures UniquePlacement(ch[p := RemoveAt(ch[p], k)])
  {
    var ch' := ch[p := RemoveAt(ch[p], k)];
    forall a, b, i, j | a in ch' && b in ch' && 0 <= i < |ch'[a]| && 0 <= j < |ch'[b]| && ch'[a][i] == ch'[b][j]
      ensures a == b && i == j
    {
      var i0 := if a == p && i >= k then i + 1 else i;
      var j0 := if b == p && j >= k then j + 1 else j;
      assert ch'[a][i] == ch[a][i0];
      assert ch'[b][j] == ch[b][j0];
    }
  }

  /** Removing the first occurrence of a node from one list keeps every placement unique. */
  lemma UniqueAfterWithout(ch: map<Node, seq<Node>>, p: Node, x: Node)
    requires UniquePlacement(ch) && p in ch
    ensures UniquePlacement(ch[p := Without(ch[p], x)])
  {
    if x in ch[p] {
      var k := FirstIndexOf(ch[p], x);
      WithoutAt(ch[p], x, k);
      UniqueAfterRemoveAt(ch, p, k);
    } else {
      assert ch[p := Without(ch[p], x)] == ch;
    }
  }

  // ----------------------------------------------------------------------------------
  // AddOrUpdateMember

  /** Registering a new member ID keeps every earlier member node a member node. */
  lemma MemberNodesGrow(t: Tree, r: Tree, id: string, n: Node)
    requires id !in t.userNodes && r.userNodes == t.userNodes[id := n]
    ensures forall x :: IsMemberNode(t, x) ==> IsMemberNode(r, x)
    ensures IsMemberNode(r, n)
  {
    forall x | IsMemberNode(t, x) ensures IsMemberNode(r, x) {
      var u :| u in t.userNodes && t.userNodes[u] == x;
      assert r.userNodes[u] == x;
    }
    assert r.userNodes[id] == n;
  }

  /** The target of a new member is the root or one of the buckets. */
  lemma TargetIsContainer(t: Tree, ordered: seq<string>)
    requires Wf(t) && RootShape(t)
    ensures Target(t, ordered) == Root || Target(t, ordered) in Buckets(t)
  {
  }

  /**
   * A new member's node goes into a bucket exactly when one of its ordered role IDs has
   * one, and then into the bucket of the first such ID.
   */
  lemma TargetFirstHeld(t: Tree, ordered: seq<string>)
    requires Wf(t) && RootShape(t)
    ensures var c := Target(t, ordered);
      && (c != Root <==> exists i :: 0 <= i < |ordered| && ordered[i] in t.roleNodes)
      && (c != Root ==>
            exists i :: (0 <= i < |ordered| && ordered[i] in t.roleNodes && c == t.roleNodes[ordered[i]] &&
                         forall j :: 0 <= j < i ==> ordered[j] !in t.roleNodes))
  {
    var k := FirstHeld(ordered, t.roleNodes);
    if k < |ordered| {
      var hs, rc := Hoisted(t.roles), t.children[Root];
      var c := t.roleNodes[ordered[k]];
      assert c in rc[..|hs|];
      var j :| 0 <= j < |hs| && rc[..|hs|][j] == c;
      assert rc[j] == c;
    }
  }

  /** Relabelling a member's node keeps the roster invariant. */
  lemma ValidRelabelled(t: Tree, m: Member, name: string, ordered: seq<string>)
    requires Valid(t) && m.userId in t.userNodes
    ensures Valid(Added(t, m, name, ordered))
  {
    var r := Added(t, m, name, ordered);
    var hs, rc := Hoisted(t.roles), t.children[Root];
    forall i | 0 <= i < |hs| ensures IsBucketOf(r, rc[i], hs[i]) {
      assert t.userNodes[m.userId] != rc[i];
    }
  }

  /** What placing a new member's node does to the child lists. */
  lemma PlacedChildren(t: Tree, m: Member, name: string, ordered: seq<string>)
    requires Wf(t) && UniquePlacement(t.children) && RootShape(t) && m.userId !in t.userNodes
    requires Target(t, ordered) == Root || Target(t, ordered) in Buckets(t)
    ensures var r, n, c := Added(t, m, name, ordered), t.next, Target(t, ordered);
      && n !in t.children
      && r.children == t.children[n := []][c := t.children[c] + [n]]
      && UniquePlacement(r.children)
      && r.children[Root][..|Hoisted(t.roles)|] == Buckets(t)
  {
    var n, c := t.next, Target(t, ordered);
    var ch1 := t.children[n := []];
    UniqueAfterClear(t.children, n);
    UniqueAfterAppend(ch1, c, n);
  }

  lemma PlacedRootShape(t: Tree, m: Member, name: string, ordered: seq<string>)
    requires Wf(t) && RootShape(t) && m.userId !in t.userNodes
    requires Target(t, ordered) == Root || Target(t, ordered) in Buckets(t)
    ensures RootShape(Added(t, m, name, ordered))
  {
    var r, n, c := Added(t, m, name, ordered), t.next, Target(t, ordered);
    MemberNodesGrow(t, r, m.userId, n);
    var hs, rc, rc' := Hoisted(t.roles), t.children[Root], r.children[Root];
    assert rc' == if c == Root then rc + [n] else rc;
    assert rc'[..|hs|] == rc[..|hs|];
    forall i | 0 <= i < |hs| ensures IsBucketOf(r, rc'[i], hs[i]) {
      assert rc'[i] == rc[i];
      assert rc[i] in t.children;
    }
    forall i | |hs| <= i < |rc'| ensures IsMemberNode(r, rc'[i]) {
      if i < |rc| {
        assert rc'[i] == rc[i];
      }
    }
  }

  lemma PlacedBucketsHoldMembers(t: Tree, m: Member, name: string, ordered: seq<string>)
    requires Wf(t) && |Hoisted(t.roles)| <= |t.children[Root]| && BucketsHoldMembers(t) && m.userId !in t.userNodes
    requires Target(t, ordered) == Root || Target(t, ordered) in Buckets(t)
    ensures BucketsHoldMembers(Added(t, m, name, ordered))
  {
    var r, n, c := Added(t, m, name, ordered), t.next, Target(t, ordered);
    MemberNodesGrow(t, r, m.userId, n);
    var hs, rc, rc' := Hoisted(t.roles), t.children[Root], r.children[Root];
    assert rc' == if c == Root then rc + [n] else rc;
    forall i, j | 0 <= i < |hs| && i < |rc'| && 0 <= j < |r.children[rc'[i]]|
      ensures IsMemberNode(r, r.children[rc'[i]][j])
    {
      assert rc'[i] == rc[i];
      if !(rc[i] == c && j == |t.children[c]|) {
        assert r.children[rc'[i]][j] == t.children[rc[i]][j];
      }
    }
  }

  lemma PlacedLeaves(t: Tree, m: Member, name: string, ordered: seq<string>)
    requires Wf(t) && |Hoisted(t.roles)| <= |t.children[Root]| && MemberLeaves(t) && MembersApart(t) && m.userId !in t.userNodes
    requires Target(t, ordered) == Root || Target(t, ordered) in Buckets(t)
    ensures MemberLeaves(Added(t, m, name, ordered))
  {
    var r, n, c := Added(t, m, name, ordered), t.next, Target(t, ordered);
    var hs, rc := Hoisted(t.roles), t.children[Root];
    forall u | u in r.userNodes ensures r.children[r.userNodes[u]] == [] {
      if u != m.userId && c != Root {
        var i :| 0 <= i < |hs| && Buckets(t)[i] == c;
        assert rc[i] == c;
      }
    }
  }

  lemma PlacedApart(t: Tree, m: Member, name: string, ordered: seq<string>)
    requires Wf(t) && |Hoisted(t.roles)| <= |t.children[Root]| && MembersApart(t) && m.userId !in t.userNodes
    requires Target(t, ordered) == Root || Target(t, ordered) in Buckets(t)
    ensures MembersApart(Added(t, m, name, ordered))
  {
    var r, n, c := Added(t, m, name, ordered), t.next, Target(t, ordered);
    var hs, rc, rc' := Hoisted(t.roles), t.children[Root], r.children[Root];
    assert rc' == if c == Root then rc + [n] else rc;
    forall u, i | u in r.userNodes && 0 <= i < |hs| && i < |rc'| ensures r.userNodes[u] != rc'[i] {
      assert rc'[i] == rc[i];
    }
  }

  lemma PlacedDistinct(t: Tree, m: Member, name: string, ordered: seq<string>)
    requires Wf(t) && MembersDistinct(t) && m.userId !in t.userNodes
    ensures MembersDistinct(Added(t, m, name, ordered))
  {
    var r, n := Added(t, m, name, ordered), t.next;
    forall u | u in t.userNodes ensures t.userNodes[u] != n {
      assert t.userNodes[u] in t.children;
    }
  }

  lemma PlacedMemberNodesOk(t: Tree, m: Member, name: string, ordered: seq<string>)
    requires Wf(t) && |Hoisted(t.roles)| <= |t.children[Root]| && MemberNodesOk(t) && m.userId !in t.userNodes
    requires Target(t, ordered) == Root || Target(t, ordered) in Buckets(t)
    ensures MemberNodesOk(Added(t, m, name, ordered))
  {
    PlacedLeaves(t, m, name, ordered);
    PlacedApart(t, m, name, ordered);
    PlacedDistinct(t, m, name, ordered);
  }

  /** `AddOrUpdateMember` keeps the roster invariant. */
  lemma ValidAdded(t: Tree, m: Member, name: string, ordered: seq<string>)
    requires Valid(t)
    ensures Valid(Added(t, m, name, ordered))
  {
    if m.userId in t.userNodes {
      ValidRelabelled(t, m, name, ordered);
    } else {
      TargetIsContainer(t, ordered);
      PlacedChildren(t, m, name, ordered);
      PlacedRootShape(t, m, name, ordered);
      PlacedBucketsHoldMembers(t, m, name, ordered);
      PlacedMemberNodesOk(t, m, name, ordered);
    }
  }

  // ----------------------------------------------------------------------------------
  // RemoveMember

  /** Member nodes are leaves other than the root and the buckets. */
  lemma MemberNodeFacts(t: Tree)
    requires Wf(t) && |Hoisted(t.roles)| <= |t.children[Root]| && MemberLeaves(t) && MembersApart(t)
    ensures forall x :: IsMemberNode(t, x) ==>
      x in t.children && t.children[x] == [] && x != Root && x !in Buckets(t)
  {
    forall x | IsMemberNode(t, x)
      ensures x in t.children && t.children[x] == [] && x != Root && x !in Buckets(t)
    {
      var u :| u in t.userNodes && t.userNodes[u] == x;
      forall i | 0 <= i < |Buckets(t)| ensures Buckets(t)[i] != x {
        assert Buckets(t)[i] == t.children[Root][i];
      }
    }
  }

  /** The walk finds a member node directly under the root past the buckets, or in a bucket. */
  lemma ParentOfMember(t: Tree, n: Node, p: Node)
    requires Wf(t) && |Hoisted(t.roles)| <= |t.children[Root]| && MemberLeaves(t) && MembersApart(t) && TailMembers(t)
    requires IsMemberNode(t, n) && Parent(t, n) == Some(p)
    ensures p == Root || p in Buckets(t)
    ensures p == Root ==> n in t.children[Root] && n !in Buckets(t)
    ensures p == Root ==> forall i :: 0 <= i < |Hoisted(t.roles)| ==> t.children[Root][i] != n
  {
    var hs, rc := Hoisted(t.roles), t.children[Root];
    MemberNodeFacts(t);
    if p != Root {
      var i :| 0 <= i < |rc| && rc[i] == p;
      assert i < |hs|;
      assert p == Buckets(t)[i];
    } else {
      forall i | 0 <= i < |hs| ensures rc[i] != n {
        assert Buckets(t)[i] == rc[i];
      }
    }
  }

  /** Deleting a child keeps the tree well formed. */
  lemma DeletedWf(t: Tree, p: Node, k: nat)
    requires Wf(t) && p in t.children && k < |t.children[p]|
    ensures Wf(t.(children := t.children[p := RemoveAt(t.children[p], k)]))
  {
    var r := t.(children := t.children[p := RemoveAt(t.children[p], k)]);
    forall a, i | a in r.children && 0 <= i < |r.children[a]|
      ensures r.children[a][i] in r.children && r.children[a][i] != Root
    {
      if a == p {
        assert r.children[a][i] == t.children[p][if i < k then i else i + 1];
      }
    }
  }

  /** The deletion leaves the order of the other children and the bucket prefix of the root alone. */
  lemma DeletedKeepsPrefix(t: Tree, p: Node, k: nat)
    requires Wf(t) && |Hoisted(t.roles)| <= |t.children[Root]|
    requires p in t.children && k < |t.children[p]|
    requires (p == Root && k >= |Hoisted(t.roles)|) || p in Buckets(t)
    ensures var rc' := t.children[p := RemoveAt(t.children[p], k)][Root];
      |Hoisted(t.roles)| <= |rc'| && rc'[..|Hoisted(t.roles)|] == Buckets(t)
  {
    var hs, rc := Hoisted(t.roles), t.children[Root];
    var rc' := t.children[p := RemoveAt(t.children[p], k)][Root];
    if p == Root {
      assert rc'[..|hs|] == rc[..|hs|];
    } else {
      assert rc' == rc;
    }
  }
  lemma DeletedRootShape(t: Tree, p: Node, k: nat)
    requires Wf(t) && RootShape(t) && p in t.children && k < |t.children[p]|
    requires (p == Root && k >= |Hoisted(t.roles)|) || p in Buckets(t)
    ensures Wf(t.(children := t.children[p := RemoveAt(t.children[p], k)]))
    ensures RootShape(t.(children := t.children[p := RemoveAt(t.children[p], k)]))
  {
    DeletedWf(t, p, k);
    var r := t.(children := t.children[p := RemoveAt(t.children[p], k)]);
    var hs, rc, rc' := Hoisted(t.roles), t.children[Root], r.children[Root];
    if p == Root {
      assert rc'[..|hs|] == rc[..|hs|];
      forall i | |hs| <= i < |rc'| ensures IsMemberNode(r, rc'[i]) {
        assert rc'[i] == rc[if i < k then i else i + 1];
      }
    } else {
      assert rc' == rc;
    }
  }

  lemma DeletedBucketsHoldMembers(t: Tree, p: Node, k: nat)
    requires Wf(t) && |Hoisted(t.roles)| <= |t.children[Root]| && BucketsHoldMembers(t) && p in t.children && k < |t.children[p]|
    requires (p == Root && k >= |Hoisted(t.roles)|) || p in Buckets(t)
    ensures Wf(t.(children := t.children[p := RemoveAt(t.children[p], k)]))
    ensures BucketsHoldMembers(t.(children := t.children[p := RemoveAt(t.children[p], k)]))
  {
    DeletedWf(t, p, k);
    var r := t.(children := t.children[p := RemoveAt(t.children[p], k)]);
    var hs, rc, rc' := Hoisted(t.roles), t.children[Root], r.children[Root];
    forall i, j | 0 <= i < |hs| && i < |rc'| && 0 <= j < |r.children[rc'[i]]|
      ensures IsMemberNode(r, r.children[rc'[i]][j])
    {
      assert rc'[i] == rc[i];
      if rc[i] == p {
        assert r.children[rc'[i]][j] == t.children[p][if j < k then j else j + 1];
      }
    }
  }

  lemma DeletedLeaves(t: Tree, p: Node, k: nat)
    requires Wf(t) && |Hoisted(t.roles)| <= |t.children[Root]| && MemberLeaves(t) && MembersApart(t)
    requires p in t.children && k < |t.children[p]|
    requires (p == Root && k >= |Hoisted(t.roles)|) || p in Buckets(t)
    ensures Wf(t.(children := t.children[p := RemoveAt(t.children[p], k)]))
    ensures MemberLeaves(t.(children := t.children[p := RemoveAt(t.children[p], k)]))
  {
    DeletedWf(t, p, k);
    var r := t.(children := t.children[p := RemoveAt(t.children[p], k)]);
    var hs, rc := Hoisted(t.roles), t.children[Root];
    forall u | u in r.userNodes ensures r.children[r.userNodes[u]] == [] {
      if p != Root {
        var i :| 0 <= i < |hs| && Buckets(t)[i] == p;
        assert rc[i] == p;
      }
    }
  }

  lemma DeletedMemberNodesOk(t: Tree, p: Node, k: nat)
    requires Wf(t) && |Hoisted(t.roles)| <= |t.children[Root]| && MemberNodesOk(t) && p in t.children && k < |t.children[p]|
    requires (p == Root && k >= |Hoisted(t.roles)|) || p in Buckets(t)
    ensures Wf(t.(children := t.children[p := RemoveAt(t.children[p], k)]))
    ensures MemberNodesOk(t.(children := t.children[p := RemoveAt(t.children[p], k)]))
  {
    DeletedLeaves(t, p, k);
    var r := t.(children := t.children[p := RemoveAt(t.children[p], k)]);
    var hs, rc, rc' := Hoisted(t.roles), t.children[Root], r.children[Root];
    assert rc'[..|hs|] == rc[..|hs|];
    forall u, i | u in r.userNodes && 0 <= i < |hs| && i < |rc'| ensures r.userNodes[u] != rc'[i] {
      assert rc'[i] == rc[i];
    }
  }

  /**
   * Deleting one child of a bucket, or one member node directly under the root, keeps
   * the roster invariant.
   */
  lemma ValidDeleted(t: Tree, p: Node, k: nat)
    requires Valid(t) && p in t.children && k < |t.children[p]|
    requires (p == Root && k >= |Hoisted(t.roles)|) || p in Buckets(t)
    ensures Valid(t.(children := t.children[p := RemoveAt(t.children[p], k)]))
  {
    UniqueAfterRemoveAt(t.children, p, k);
    DeletedRootShape(t, p, k);
    DeletedBucketsHoldMembers(t, p, k);
    DeletedMemberNodesOk(t, p, k);
  }

  /**
   * Where the walk finds the member's node, `Removed` deletes it at its first (and only)
   * index, which under the root lies past the buckets.
   */
  lemma RemovedAtIndex(t: Tree, m: Member) returns (p: Node, k: nat)
    requires Wf(t) && |Hoisted(t.roles)| <= |t.children[Root]| && MemberLeaves(t) && MembersApart(t) && TailMembers(t)
    requires m.userId in t.userNodes && Parent(t, t.userNodes[m.userId]).Some?
    ensures p == Parent(t, t.userNodes[m.userId]).value
    ensures k < |t.children[p]| && t.children[p][k] == t.userNodes[m.userId]
    ensures (p == Root && k >= |Hoisted(t.roles)|) || p in Buckets(t)
    ensures Removed(t, m) == t.(children := t.children[p := RemoveAt(t.children[p], k)])
  {
    var n := t.userNodes[m.userId];
    p := Parent(t, n).value;
    ParentOfMember(t, n, p);
    k := FirstIndexOf(t.children[p], n);
    WithoutAt(t.children[p], n, k);
  }

  /** `RemoveMember` keeps the roster invariant. */
  lemma ValidRemoved(t: Tree, m: Member)
    requires Valid(t)
    ensures Valid(Removed(t, m))
  {
    if m.userId in t.userNodes && Parent(t, t.userNodes[m.userId]).Some? {
      var p, k := RemovedAtIndex(t, m);
      ValidDeleted(t, p, k);
    }
  }

  /**
   * Removing a member whose node sits at index k of the root or of a bucket deletes
   * exactly that child: the other children keep their relative order, and nothing else
   * changes (in particular the member stays registered).
   */
  lemma RemovedInTree(t: Tree, m: Member, c: Node, k: nat)
    requires Valid(t) && m.userId in t.userNodes
    requires c == Root || c in Buckets(t)
    requires k < |t.children[c]| && t.children[c][k] == t.userNodes[m.userId]
    ensures Removed(t, m) == t.(children := t.children[c := RemoveAt(t.children[c], k)])
  {
    var n := t.userNodes[m.userId];
    assert c != Root ==> c in t.children[Root];
    assert Parent(t, n).Some?;
    var p, k' := RemovedAtIndex(t, m);
  }

  /**
   * Removing a member that is not registered, or whose node is no longer under the root
   * or any bucket, changes nothing.
   */
  lemma RemovedDetached(t: Tree, m: Member)
    requires Valid(t)
    requires m.userId in t.userNodes ==>
      var n := t.userNodes[m.userId];
      n !in t.children[Root] && forall b :: b in Buckets(t) ==> n !in t.children[b]
    ensures Removed(t, m) == t
  {
    if m.userId in t.userNodes && Parent(t, t.userNodes[m.userId]).Some? {
      var n := t.userNodes[m.userId];
      ParentOfMember(t, n, Parent(t, n).value);
    }
  }

  // ----------------------------------------------------------------------------------
  // LoadGuild

  /**
   * `u` is `t0` with the buckets of `hs` built: fresh consecutive nodes appended to the
   * empty root, each empty, labelled with its role's name and not selectable, and indexed
   * by role ID.
   */
  ghost predicate BuiltFrom(t0: Tree, u: Tree, hs: seq<Role>) {
    && Wf(u) && UniquePlacement(u.children)
    && u.userNodes == map[] && u.roles == t0.roles && u.current == t0.current
    && u.next == t0.next + |hs|
    && |u.children[Root]| == |hs|
    && (forall i :: 0 <= i < |hs| ==> u.children[Root][i] == t0.next + i)
    && u.roleNodes == RoleIndex(hs, u.children[Root])
    && (forall i :: 0 <= i < |hs| ==> IsBucketOf(u, u.children[Root][i], hs[i]))
    && (forall i :: 0 <= i < |hs| ==> u.children[u.children[Root][i]] == [])
  }

  /** A fresh bucket appended to the root is placed once. */
  lemma BucketPlacedOnce(u: Tree, r: Role)
    requires Wf(u) && UniquePlacement(u.children)
    ensures UniquePlacement(AddBucket(u, r).children)
  {
    var b := u.next;
    var ch := u.children[b := []];
    UniqueAfterClear(u.children, b);
    assert forall a, i :: a in ch && 0 <= i < |ch[a]| ==> ch[a][i] != b by {
      forall a, i | a in ch && 0 <= i < |ch[a]| ensures ch[a][i] != b {
        assert a != b && ch[a][i] == u.children[a][i];
      }
    }
    UniqueAfterAppend(ch, Root, b);
  }

  /** A fresh bucket is indexed by its role's ID, after the buckets already built. */
  lemma BucketIndexed(t0: Tree, u: Tree, hs: seq<Role>, r: Role)
    requires BuiltFrom(t0, u, hs)
    ensures AddBucket(u, r).roleNodes == RoleIndex(hs + [r], AddBucket(u, r).children[Root])
  {
    var u', hs' := AddBucket(u, r), hs + [r];
    assert u'.children[Root] == u.children[Root] + [u.next];
    assert hs'[..|hs'| - 1] == hs;
    assert u'.children[Root][..|hs'| - 1] == u.children[Root];
  }

  /** A fresh bucket comes after the buckets already built, empty, labelled and not selectable. */
  lemma BucketAppended(t0: Tree, u: Tree, hs: seq<Role>, r: Role)
    requires BuiltFrom(t0, u, hs)
    ensures var u', hs' := AddBucket(u, r), hs + [r];
      && |u'.children[Root]| == |hs'|
      && (forall i :: 0 <= i < |hs'| ==> u'.children[Root][i] == t0.next + i)
      && (forall i :: 0 <= i < |hs'| ==> IsBucketOf(u', u'.children[Root][i], hs'[i]))
      && (forall i :: 0 <= i < |hs'| ==> u'.children[u'.children[Root][i]] == [])
  {
    var u', hs', b := AddBucket(u, r), hs + [r], u.next;
    assert u'.children[Root] == u.children[Root] + [b];
    forall i | 0 <= i < |hs'|
      ensures IsBucketOf(u', u'.children[Root][i], hs'[i]) && u'.children[u'.children[Root][i]] == []
    {
      if i < |hs| {
        assert u'.children[Root][i] == u.children[Root][i];
      }
    }
  }

  /** One hoisted role more: one bucket more. */
  lemma BuiltStep(t0: Tree, u: Tree, hs: seq<Role>, r: Role)
    requires BuiltFrom(t0, u, hs)
    ensures BuiltFrom(t0, AddBucket(u, r), hs + [r])
  {
    BucketPlacedOnce(u, r);
    BucketIndexed(t0, u, hs, r);
    BucketAppended(t0, u, hs, r);
  }

  /**
   * On a tree whose root, member map and role map are empty, the loop of
   * `loadGuildRoles` builds exactly the buckets of the hoisted roles, in order.
   */
  lemma {:induction false} BucketsBuilt(t0: Tree, rs: seq<Role>)
    requires Wf(t0) && UniquePlacement(t0.children)
    requires t0.children[Root] == [] && t0.userNodes == map[] && t0.roleNodes == map[]
    ensures BuiltFrom(t0, WithBuckets(t0, rs), Hoisted(rs))
  {
    if |rs| > 0 {
      var n := |rs|;
      var u, hs, r := WithBuckets(t0, rs[..n - 1]), Hoisted(rs[..n - 1]), rs[n - 1];
      BucketsBuilt(t0, rs[..n - 1]);
      if r.hoist {
        assert WithBuckets(t0, rs) == AddBucket(u, r);
        assert Hoisted(rs) == hs + [r];
        BuiltStep(t0, u, hs, r);
      } else {
        assert WithBuckets(t0, rs) == u;
        assert Hoisted(rs) == hs;
      }
    }
  }

  /** The reset of `LoadGuild` leaves an empty roster that satisfies the invariant. */
  lemma ValidReset(t: Tree)
    requires Valid(t)
    ensures Valid(Reset(t))
  {
    UniqueAfterClear(t.children, Root);
  }

  /** Selecting a node changes nothing the invariant speaks of. */
  lemma ValidSelectFirst(t: Tree)
    requires Valid(t)
    ensures Valid(SelectFirst(t)) && SelectFirst(t).children == t.children
  {
    if SelectFirst(t) != t {
      ValidAnyCurrent(t, SelectFirst(t).current);
    }
  }

  /** The invariant does not speak of the current node. */
  lemma ValidAnyCurrent(t: Tree, c: Option<Node>)
    requires Valid(t)
    ensures Valid(t.(current := c))
  {
    var r := t.(current := c);
    assert Hoisted(r.roles) == Hoisted(t.roles);
    assert r.children == t.children;
  }

  /** Storing other roles keeps the tree well formed. */
  lemma WfWithRoles(t: Tree, rs: seq<Role>)
    requires Wf(t)
    ensures Wf(t.(roles := rs))
  {
    assert t.(roles := rs).children == t.children;
  }

  /** Freshly built buckets, with the roles they were built from stored, have the root's shape. */
  lemma BuiltRootShape(t0: Tree, u: Tree, rs: seq<Role>)
    requires BuiltFrom(t0, u, Hoisted(rs))
    ensures Wf(u.(roles := rs)) && RootShape(u.(roles := rs))
  {
    WfWithRoles(u, rs);
    var v, hs := u.(roles := rs), Hoisted(rs);
    assert v.children[Root][..|hs|] == v.children[Root];
    assert BucketsIndexed(v);
    assert BucketsLabelled(v) by {
      forall i | 0 <= i < |hs| ensures IsBucketOf(v, v.children[Root][i], hs[i]) {
        assert IsBucketOf(u, u.children[Root][i], hs[i]);
      }
    }
  }

  /** Freshly built buckets, with the roles they were built from stored, keep the invariant. */
  lemma BuiltValid(t0: Tree, u: Tree, rs: seq<Role>)
    requires BuiltFrom(t0, u, Hoisted(rs))
    ensures Valid(u.(roles := rs))
  {
    BuiltRootShape(t0, u, rs);
    var v, hs := u.(roles := rs), Hoisted(rs);
    assert forall i :: 0 <= i < |hs| ==> v.children[v.children[Root][i]] == [];
  }

  /** The tree after the reset and the role step of a load whose guild lookup succeeded. */
  lemma LoadedRoles(t: Tree, sorted: seq<Role>)
    requires Wf(t) && UniquePlacement(t.children)
    ensures var u, hs := WithBuckets(Reset(t), sorted).(roles := sorted), Hoisted(sorted);
      && Valid(u)
      && u.userNodes == map[] && u.current == t.current
      && Buckets(u) == u.children[Root]
      && (forall i :: 0 <= i < |hs| ==> Buckets(u)[i] == t.next + i && u.children[Buckets(u)[i]] == [])
  {
    var t0 := Reset(t);
    UniqueAfterClear(t.children, Root);
    BucketsBuilt(t0, sorted);
    BuiltValid(t0, WithBuckets(t0, sorted), sorted);
    var u, hs := WithBuckets(t0, sorted).(roles := sorted), Hoisted(sorted);
    assert u.children[Root][..|hs|] == u.children[Root];
  }

  /** `AddOrUpdateMember` leaves the roles, the buckets, their index and the selection alone. */
  lemma AddedKeepsBuckets(t: Tree, m: Member, name: string, ordered: seq<string>)
    requires Wf(t) && RootShape(t)
    ensures var r := Added(t, m, name, ordered);
      && r.roles == t.roles && r.roleNodes == t.roleNodes && r.current == t.current
      && |Hoisted(r.roles)| <= |r.children[Root]| && Buckets(r) == Buckets(t)
  {
    if m.userId !in t.userNodes {
      TargetIsContainer(t, ordered);
      var r, n, c, hs := Added(t, m, name, ordered), t.next, Target(t, ordered), Hoisted(t.roles);
      assert c != n;
      assert r.children[Root] == if c == Root then t.children[Root] + [n] else t.children[Root];
      assert r.children[Root][..|hs|] == t.children[Root][..|hs|];
    }
  }

  /** `RemoveMember` leaves the roles, the buckets, their index, the members and the selection alone. */
  lemma RemovedKeepsBuckets(t: Tree, m: Member)
    requires Wf(t) && |Hoisted(t.roles)| <= |t.children[Root]|
    requires MemberLeaves(t) && MembersApart(t) && TailMembers(t)
    ensures var r := Removed(t, m);
      && r.roles == t.roles && r.roleNodes == t.roleNodes && r.current == t.current
      && r.userNodes == t.userNodes
      && |Hoisted(r.roles)| <= |r.children[Root]| && Buckets(r) == Buckets(t)
  {
    if m.userId in t.userNodes && Parent(t, t.userNodes[m.userId]).Some? {
      var p, k := RemovedAtIndex(t, m);
      DeletedKeepsPrefix(t, p, k);
    }
  }

  /** `AddOrUpdateMembers` keeps the invariant, the buckets and the selection. */
  lemma {:induction false} AddedAllKeepsBuckets(t: Tree, ms: seq<Member>, nameOf: Member -> string,
                                                order: (seq<string>, seq<Role>) -> seq<string>)
    requires Valid(t)
    ensures var r := AddedAll(t, ms, nameOf, order);
      && Valid(r) && r.roles == t.roles && r.roleNodes == t.roleNodes
      && Buckets(r) == Buckets(t) && r.current == t.current
  {
    if |ms| > 0 {
      AddedAllKeepsBuckets(t, ms[..|ms| - 1], nameOf, order);
      var u, m := AddedAll(t, ms[..|ms| - 1], nameOf, order), ms[|ms| - 1];
      ValidAdded(u, m, nameOf(m), order(m.roles, u.roles));
      AddedKeepsBuckets(u, m, nameOf(m), order(m.roles, u.roles));
    }
  }

  /** `RemoveMembers` keeps the invariant, the buckets, the member map and the selection. */
  lemma {:induction false} RemovedAllKeepsBuckets(t: Tree, ms: seq<Member>)
    requires Valid(t)
    ensures var r := RemovedAll(t, ms);
      && Valid(r) && r.roles == t.roles && r.roleNodes == t.roleNodes
      && Buckets(r) == Buckets(t) && r.current == t.current && r.userNodes == t.userNodes
  {
    if |ms| > 0 {
      RemovedAllKeepsBuckets(t, ms[..|ms| - 1]);
      ValidRemoved(RemovedAll(t, ms[..|ms| - 1]), ms[|ms| - 1]);
      RemovedKeepsBuckets(RemovedAll(t, ms[..|ms| - 1]), ms[|ms| - 1]);
    }
  }

  /**
   * Any sequence of add and remove events keeps the roster invariant (each node in at
   * most one container, the buckets first under the root and then only member nodes)
   * and never changes the buckets.
   */
  lemma {:induction false} AppliedKeepsBuckets(t: Tree, es: seq<Event>, nameOf: Member -> string,
                                               order: (seq<string>, seq<Role>) -> seq<string>)
    requires Valid(t)
    ensures var r := Applied(t, es, nameOf, order);
      && Valid(r) && r.roles == t.roles && r.roleNodes == t.roleNodes && Buckets(r) == Buckets(t)
  {
    if |es| > 0 {
      AppliedKeepsBuckets(t, es[..|es| - 1], nameOf, order);
      var u := Applied(t, es[..|es| - 1], nameOf, order);
      match es[|es| - 1]
      case AddOrUpdate(m) =>
        ValidAdded(u, m, nameOf(m), order(m.roles, u.roles));
        AddedKeepsBuckets(u, m, nameOf(m), order(m.roles, u.roles));
      case Remove(m) =>
        ValidRemoved(u, m);
        RemovedKeepsBuckets(u, m);
    }
  }

  /**
   * After a successful guild lookup, whatever the member lookup answers, the tree keeps
   * the roles, buckets and role index the role step built.
   */
  lemma LoadKeepsRoleStep(t: Tree, guild: Result<seq<Role>, FetchError>, members: Result<seq<Member>, FetchError>,
                          sorted: seq<Role>, nameOf: Member -> string, order: (seq<string>, seq<Role>) -> seq<string>)
    requires Wf(t) && UniquePlacement(t.children) && guild.Success?
    ensures var r, u := Load(t, guild, members, sorted, nameOf, order).tree, WithBuckets(Reset(t), sorted).(roles := sorted);
      && Wf(u) && |Hoisted(u.roles)| <= |u.children[Root]| && Valid(r)
      && r.roles == u.roles && r.roleNodes == u.roleNodes && Buckets(r) == Buckets(u)
  {
    var u := WithBuckets(Reset(t), sorted).(roles := sorted);
    LoadedRoles(t, sorted);
    if members.Success? {
      AddedAllKeepsBuckets(u, members.value, nameOf, order);
      ValidSelectFirst(AddedAll(u, members.value, nameOf, order));
    }
  }

  /** `LoadGuild` always leaves a tree that satisfies the roster invariant. */
  lemma ValidLoad(t: Tree, guild: Result<seq<Role>, FetchError>, members: Result<seq<Member>, FetchError>,
                  sorted: seq<Role>, nameOf: Member -> string, order: (seq<string>, seq<Role>) -> seq<string>)
    requires Valid(t)
    ensures Valid(Load(t, guild, members, sorted, nameOf, order).tree)
  {
    if guild.Failure? {
      ValidReset(t);
    } else {
      LoadKeepsRoleStep(t, guild, members, sorted, nameOf, order);
    }
  }

  /**
   * After a load, any sequence of add and remove events keeps the roster invariant and
   * the buckets the load built.
   */
  lemma LoadThenEvents(t: Tree, guild: Result<seq<Role>, FetchError>, members: Result<seq<Member>, FetchError>,
                       sorted: seq<Role>, nameOf: Member -> string, order: (seq<string>, seq<Role>) -> seq<string>,
                       es: seq<Event>)
    requires Valid(t)
    ensures var l := Load(t, guild, members, sorted, nameOf, order).tree;
      Valid(l) && Valid(Applied(l, es, nameOf, order)) && Buckets(Applied(l, es, nameOf, order)) == Buckets(l)
  {
    var l := Load(t, guild, members, sorted, nameOf, order).tree;
    ValidLoad(t, guild, members, sorted, nameOf, order);
    AppliedKeepsBuckets(l, es, nameOf, order);
  }

  /**
   * A failed guild lookup returns its error and leaves everything empty; a failed member
   * lookup returns its error and leaves the buckets, empty, with no member node anywhere.
   */
  lemma LoadFailures(t: Tree, guild: Result<seq<Role>, FetchError>, members: Result<seq<Member>, FetchError>,
                     sorted: seq<Role>, nameOf: Member -> string, order: (seq<string>, seq<Role>) -> seq<string>)
    requires Valid(t)
    ensures var r := Load(t, guild, members, sorted, nameOf, order);
      && (guild.Failure? ==>
            && r.err == Some(guild.error)
            && r.tree.userNodes == map[] && r.tree.roleNodes == map[] && r.tree.roles == []
            && r.tree.children[Root] == [])
      && (guild.Success? && members.Failure? ==>
            && r.err == Some(members.error)
            && Valid(r.tree)
            && r.tree.userNodes == map[]
            && r.tree.children[Root] == Buckets(r.tree)
            && forall b :: b in Buckets(r.tree) ==> r.tree.children[b] == [])
  {
    if guild.Success? && members.Failure? {
      LoadedRoles(t, sorted);
    }
  }

  /**
   * After a successful guild lookup the buckets are fresh nodes, one per hoisted role of
   * the guild, in non-increasing position order when `sorted` is the guild's roles sorted
   * that way, each labelled with its role's name and not selectable; the role index has
   * exactly the hoisted roles' IDs.
   */
  lemma LoadBuckets(t: Tree, guild: Result<seq<Role>, FetchError>, members: Result<seq<Member>, FetchError>,
                    sorted: seq<Role>, nameOf: Member -> string, order: (seq<string>, seq<Role>) -> seq<string>)
    requires Valid(t) && guild.Success?
    requires multiset(sorted) == multiset(guild.value) && NonIncreasing(sorted)
    ensures var r, hs := Load(t, guild, members, sorted, nameOf, order).tree, Hoisted(sorted);
      && Valid(r) && r.roles == sorted
      && |Buckets(r)| == |hs|
      && multiset(hs) == multiset(Hoisted(guild.value))
      && NonIncreasing(hs)
      && (forall i :: 0 <= i < |hs| ==> Buckets(r)[i] == t.next + i && IsBucketOf(r, Buckets(r)[i], hs[i]))
      && (forall k :: k in r.roleNodes <==> exists i :: 0 <= i < |hs| && hs[i].id == k)
  {
    var u := WithBuckets(Reset(t), sorted).(roles := sorted);
    LoadedRoles(t, sorted);
    LoadKeepsRoleStep(t, guild, members, sorted, nameOf, order);
    HoistedPermutation(sorted, guild.value);
    HoistedNonIncreasing(sorted);
    RoleIndexKeys(Hoisted(sorted), Buckets(u));
  }

  /**
   * A successful load returns no error; it selects the root's first child when nothing
   * was selected and the root has children, and otherwise keeps the selection.
   */
  lemma LoadSelection(t: Tree, guild: Result<seq<Role>, FetchError>, members: Result<seq<Member>, FetchError>,
                      sorted: seq<Role>, nameOf: Member -> string, order: (seq<string>, seq<Role>) -> seq<string>)
    requires Valid(t) && guild.Success? && members.Success?
    ensures var r := Load(t, guild, members, sorted, nameOf, order);
      && r.err == None
      && (t.current.None? && |r.tree.children[Root]| > 0 ==> r.tree.current == Some(r.tree.children[Root][0]))
      && (!(t.current.None? && |r.tree.children[Root]| > 0) ==> r.tree.current == t.current)
  {
    LoadedRoles(t, sorted);
    AddedAllKeepsBuckets(WithBuckets(Reset(t), sorted).(roles := sorted), members.value, nameOf, order);
  }

  // ----------------------------------------------------------------------------------
  // Placement, relabelling and idempotence

  /**
   * A new member gets exactly one fresh node, registered under its ID, labelled `name`
   * and selectable; the roles, their index and the selection stay as they were.
   */
  lemma AddedNew(t: Tree, m: Member, name: string, ordered: seq<string>)
    requires Wf(t) && m.userId !in t.userNodes
    ensures var r, n := Added(t, m, name, ordered), t.next;
      && n !in t.children && !IsMemberNode(t, n)
      && r.userNodes == t.userNodes[m.userId := n]
      && r.text == t.text[n := name] && r.selectable == t.selectable[n := true]
      && r.roleNodes == t.roleNodes && r.roles == t.roles && r.current == t.current
  {
  }

  /** What `Added` builds for a new member, field by field. */
  lemma AddedNewFields(t: Tree, m: Member, name: string, ordered: seq<string>)
    requires Wf(t) && m.userId !in t.userNodes
    ensures var n, c := t.next, Target(t, ordered);
      Added(t, m, name, ordered) == Tree(t.userNodes[m.userId := n], t.roleNodes, t.roles,
        t.children[n := []][c := t.children[c] + [n]], t.text[n := name], t.selectable[n := true],
        t.current, n + 1)
  {
  }

  /**
   * The new member's node is appended, as a leaf, to its target, the root or a bucket;
   * every other child list stays as it was.
   */
  lemma AddedNewPlacement(t: Tree, m: Member, name: string, ordered: seq<string>)
    requires Wf(t) && RootShape(t) && m.userId !in t.userNodes
    ensures var r, n, c := Added(t, m, name, ordered), t.next, Target(t, ordered);
      && (c == Root || c in Buckets(t))
      && r.children[n] == []
      && r.children[c] == t.children[c] + [n]
      && (forall a :: a in t.children && a != c ==> r.children[a] == t.children[a])
  {
    TargetIsContainer(t, ordered);
    var n, c := t.next, Target(t, ordered);
    assert c != n;
  }

  /**
   * When `ordered` is a reordering of the member's role IDs `roles`, the new node goes
   * into a bucket exactly when the member holds some role that has one.
   */
  lemma PlacedByHeldRole(t: Tree, roles: seq<string>, ordered: seq<string>)
    requires Wf(t) && RootShape(t)
    requires multiset(ordered) == multiset(roles)
    ensures (Target(t, ordered) != Root) <==> exists i :: 0 <= i < |roles| && roles[i] in t.roleNodes
  {
    TargetFirstHeld(t, ordered);
    if exists i :: 0 <= i < |ordered| && ordered[i] in t.roleNodes {
      var i :| 0 <= i < |ordered| && ordered[i] in t.roleNodes;
      assert ordered[i] in multiset(roles);
      var j :| 0 <= j < |roles| && roles[j] == ordered[i];
    }
    if exists i :: 0 <= i < |roles| && roles[i] in t.roleNodes {
      var i :| 0 <= i < |roles| && roles[i] in t.roleNodes;
      assert roles[i] in multiset(ordered);
      var j :| 0 <= j < |ordered| && ordered[j] == roles[i];
    }
  }

  /** For a registered member only its node's label changes. */
  lemma AddedExisting(t: Tree, m: Member, name: string, ordered: seq<string>)
    requires Wf(t) && m.userId in t.userNodes
    ensures var r, n := Added(t, m, name, ordered), t.userNodes[m.userId];
      && r == t.(text := t.text[n := name])
      && r.text[n] == name && (forall x :: x in t.text && x != n ==> x in r.text && r.text[x] == t.text[x])
  {
  }


  /** Adding the same member twice with the same label is the same as adding it once. */
  lemma AddedIdempotent(t: Tree, m: Member, name: string, ordered: seq<string>, ordered': seq<string>)
    requires Wf(t)
    ensures Added(Added(t, m, name, ordered), m, name, ordered') == Added(t, m, name, ordered)
  {
    var r := Added(t, m, name, ordered);
    var n := r.userNodes[m.userId];
    assert n in r.text && r.text[n] == name;
    assert r.text[n := name] == r.text;
  }

  /**
   * Removing a member keeps its ID registered, so adding it again only relabels the
   * detached node and puts nothing back into the tree.
   */
  lemma RemovedThenAdded(t: Tree, m: Member, m': Member, name: string, ordered: seq<string>)
    requires Valid(t) && m.userId in t.userNodes && m'.userId == m.userId
    ensures var r := Removed(t, m);
      && r.userNodes == t.userNodes
      && Added(r, m', name, ordered).children == r.children
      && Added(r, m', name, ordered).userNodes == t.userNodes
  {
  }
}
