/** The role sort at the start of `loadGuildRoles` (internal/ui/usertree.go:96-98). */
module RoleSort {
  import opened Roster

  /**
   * Putting `r` between a prefix of positions at least its own and a suffix of lower
   * positions keeps a non-increasing list non-increasing.
   */
  lemma InsertKeepsOrder(s: seq<Role>, j: nat, r: Role)
    requires NonIncreasing(s) && j <= |s|
    requires forall k :: 0 <= k < j ==> s[k].position >= r.position
    requires j < |s| ==> s[j].position < r.position
    ensures NonIncreasing(s[..j] + [r] + s[j..])
  {
    var t := s[..j] + [r] + s[j..];
    forall a, b | 0 <= a < b < |t| ensures t[a].position >= t[b].position {
      if b > j && j < |s| {
        assert t[b] == s[b - 1] && s[j].position >= s[b - 1].position;
      }
      if a < j && b > j {
        assert t[a] == s[a] && t[b] == s[b - 1];
      }
    }
  }

  /** Putting `r` anywhere into `s` adds `r` once to its elements. */
  lemma InsertCount(s: seq<Role>, j: nat, r: Role)
    requires j <= |s|
    ensures multiset(s[..j] + [r] + s[j..]) == multiset(s) + multiset{r}
  {
    assert s == s[..j] + s[j..];
  }

  /** Where `r` goes in a non-increasing list: after every role placed at least as high. */
  method InsertionPoint(s: seq<Role>, r: Role) returns (j: nat)
    requires NonIncreasing(s)
    ensures j <= |s|
    ensures forall k :: 0 <= k < j ==> s[k].position >= r.position
    ensures forall k :: j <= k < |s| ==> s[k].position < r.position
  {
    j := 0;
    while j < |s| && s[j].position >= r.position
      invariant 0 <= j <= |s|
      invariant forall k :: 0 <= k < j ==> s[k].position >= r.position
    {
      j := j + 1;
    }
  }

  /**
   * Sorts the roles by descending position. The source uses an unstable sort, so the
   * contract says nothing about the order of roles with equal positions.
   */
  method SortByPosition(rs: seq<Role>) returns (sorted: seq<Role>)
    ensures NonIncreasing(sorted)
    ensures multiset(sorted) == multiset(rs)
  {
    sorted := [];
    var i := 0;
    while i < |rs|
      invariant 0 <= i <= |rs|
      invariant NonIncreasing(sorted)
      invariant multiset(sorted) == multiset(rs[..i])
    {
      var r := rs[i];
      var j := InsertionPoint(sorted, r);
      InsertKeepsOrder(sorted, j, r);
      InsertCount(sorted, j, r);
      assert rs[..i + 1] == rs[..i] + [r];
      sorted := sorted[..j] + [r] + sorted[j..];
      i := i + 1;
    }
    assert rs[..i] == rs;
  }
}
