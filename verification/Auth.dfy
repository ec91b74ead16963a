/** Users, nested groups and access lists (config/auth.go). */
module Auth {
  import opened Types

  type Name = string

  datatype Access = Unknown | Read | Write | Delete | All

  datatype Acl = Acl(repo: string, access: seq<Access>, members: seq<Name>, anonymous: bool)

  datatype Group = Missing | Group(members: seq<Name>)

  /* ---------- Group graph ---------- */

  /** The members of a group that is listed and not empty in the file. */
  function MembersOf(groups: map<Name, Group>, g: Name): seq<Name> {
    if g in groups && groups[g].Group? then groups[g].members else []
  }

  /** A nested group is a member that is not itself a user. */
  predicate Nests(users: set<Name>, groups: map<Name, Group>, g: Name, h: Name) {
    h in MembersOf(groups, g) && h !in users
  }

  /** A walk down nested groups. */
  ghost predicate Chain(users: set<Name>, groups: map<Name, Group>, p: seq<Name>) {
    && p != []
    && forall i | 0 <= i < |p| - 1 :: Nests(users, groups, p[i], p[i + 1])
  }

  ghost predicate ChainTo(users: set<Name>, groups: map<Name, Group>, p: seq<Name>, g: Name, u: Name) {
    Chain(users, groups, p) && p[0] == g && u in MembersOf(groups, p[|p| - 1])
  }

  /** User `u` belongs to group `g`, directly or through nested groups. */
  ghost predicate Belongs(users: set<Name>, groups: map<Name, Group>, g: Name, u: Name) {
    u in users && exists p :: ChainTo(users, groups, p, g, u)
  }

  /** Cutting a loop out of a walk leaves a shorter walk with the same ends. */
  lemma CutLoop(users: set<Name>, groups: map<Name, Group>, p: seq<Name>, i: nat, j: nat, g: Name, u: Name)
    requires ChainTo(users, groups, p, g, u) && i < j < |p| && p[i] == p[j]
    ensures var q := p[..i] + p[j..]; |q| < |p| && ChainTo(users, groups, q, g, u)
  {
    var q := p[..i] + p[j..];
    forall k | 0 <= k < |q| - 1 ensures Nests(users, groups, q[k], q[k + 1]) {
      if k + 1 < i {
        assert q[k] == p[k] && q[k + 1] == p[k + 1];
      } else if k + 1 == i {
        assert q[k] == p[k] && q[k + 1] == p[j] == p[k + 1];
      } else {
        assert q[k] == p[k - i + j] && q[k + 1] == p[k - i + j + 1];
      }
    }
    assert q[|q| - 1] == p[|p| - 1];
  }

  /** Membership over any walk is membership over a walk that visits no group twice. */
  lemma {:induction false} SimpleChain(users: set<Name>, groups: map<Name, Group>, p: seq<Name>, g: Name, u: Name)
    returns (q: seq<Name>)
    requires ChainTo(users, groups, p, g, u)
    ensures ChainTo(users, groups, q, g, u) && NoRepeats(q)
    decreases |p|
  {
    if NoRepeats(p) {
      q := p;
    } else {
      var i, j :| 0 <= i < j < |p| && p[i] == p[j];
      CutLoop(users, groups, p, i, j, g, u);
      q := SimpleChain(users, groups, p[..i] + p[j..], g, u);
    }
  }

  /** A walk from `name` to user `u` that visits no group twice and none of `parents`. */
  ghost predicate Walk(
      users: set<Name>, groups: map<Name, Group>, p: seq<Name>, parents: seq<Name>, name: Name, u: Name)
  {
    u in users && ChainTo(users, groups, p, name, u) && NoRepeats(p) && forall x | x in p :: x !in parents
  }

  ghost predicate ReachedBelow(users: set<Name>, groups: map<Name, Group>, parents: seq<Name>, name: Name, u: Name) {
    exists p :: Walk(users, groups, p, parents, name, u)
  }

  /** A user below `name` is a member of it, or is below a nested group on a walk that avoids `name`. */
  lemma BelowStep(users: set<Name>, groups: map<Name, Group>, parents: seq<Name>, name: Name)
    ensures forall u | ReachedBelow(users, groups, parents, name, u) ::
              && u in users && name !in parents
              && (u in MembersOf(groups, name) ||
                  exists m :: m in MembersOf(groups, name) && m !in users &&
                    ReachedBelow(users, groups, parents + [name], m, u))
  {
    forall u, p | Walk(users, groups, p, parents, name, u)
      ensures name !in parents
      ensures u in MembersOf(groups, name) ||
              exists m :: m in MembersOf(groups, name) && m !in users &&
                ReachedBelow(users, groups, parents + [name], m, u)
    {
      assert p[0] in p;
      if |p| > 1 {
        var q := p[1..];
        assert Nests(users, groups, p[0], p[1]);
        forall k | 0 <= k < |q| - 1 ensures Nests(users, groups, q[k], q[k + 1]) {
          assert Nests(users, groups, p[k + 1], p[k + 2]);
        }
        assert Walk(users, groups, q, parents + [name], p[1], u);
      }
    }
  }

  lemma BelongsListed(users: set<Name>, groups: map<Name, Group>, g: Name, u: Name)
    requires Belongs(users, groups, g, u)
    ensures g in groups
  {
    var p :| ChainTo(users, groups, p, g, u);
    assert |p| > 1 ==> Nests(users, groups, p[0], p[1]);
  }

  /** All groups the user belongs to. */
  ghost function Closure(users: set<Name>, groups: map<Name, Group>, u: Name): set<Name> {
    set g | g in groups && Belongs(users, groups, g, u)
  }

  /* ---------- What is recorded for the users ---------- */

  function GroupsIn(recorded: map<Name, set<Name>>, u: Name): set<Name> {
    if u in recorded then recorded[u] else {}
  }

  /** Every recorded group is one the user belongs to. */
  ghost predicate OnlyMembers(users: set<Name>, groups: map<Name, Group>, recorded: map<Name, set<Name>>) {
    forall u, g | g in GroupsIn(recorded, u) :: Belongs(users, groups, g, u)
  }

  predicate Grows(before: map<Name, set<Name>>, after: map<Name, set<Name>>) {
    forall u | u in before :: before[u] <= GroupsIn(after, u)
  }

  /** The groups of the walk down to `name` are recorded for every user below `name`. */
  ghost predicate RecordedBelow(
      users: set<Name>, groups: map<Name, Group>, recorded: map<Name, set<Name>>, parents: seq<Name>, name: Name)
  {
    forall u, cur | ReachedBelow(users, groups, parents, name, u) && cur in parents + [name] ::
      cur in GroupsIn(recorded, u)
  }

  /** The groups of `path` are recorded for every user among or below the members `ms`. */
  ghost predicate Recorded(
      users: set<Name>, groups: map<Name, Group>, recorded: map<Name, set<Name>>, path: seq<Name>, ms: seq<Name>)
  {
    && (forall u, cur | u in ms && u in users && cur in path :: cur in GroupsIn(recorded, u))
    && (forall m, u, cur | m in ms && m !in users && ReachedBelow(users, groups, path, m, u) && cur in path ::
          cur in GroupsIn(recorded, u))
  }

  lemma RecordedSnoc(
      users: set<Name>, groups: map<Name, Group>, before: map<Name, set<Name>>, after: map<Name, set<Name>>,
      path: seq<Name>, members: seq<Name>, i: nat)
    requires i < |members| && Grows(before, after)
    requires Recorded(users, groups, before, path, members[..i])
    requires members[i] in users ==> forall cur | cur in path :: cur in GroupsIn(after, members[i])
    requires members[i] !in users ==> RecordedBelow(users, groups, after, path, members[i])
    ensures Recorded(users, groups, after, path, members[..i + 1])
  {
    assert members[..i + 1] == members[..i] + [members[i]];
    var last := members[i];
    forall u, cur | u in members[..i + 1] && u in users && cur in path ensures cur in GroupsIn(after, u) {
      assert u in members[..i] || u == last;
    }
    forall m, u, cur | m in members[..i + 1] && m !in users && ReachedBelow(users, groups, path, m, u) && cur in path
      ensures cur in GroupsIn(after, u)
    {
      assert m in members[..i] || m == last;
      assert cur in path + [last];
    }
  }

  lemma RecordedAll(
      users: set<Name>, groups: map<Name, Group>, recorded: map<Name, set<Name>>, parents: seq<Name>, name: Name)
    requires Recorded(users, groups, recorded, parents + [name], MembersOf(groups, name))
    ensures RecordedBelow(users, groups, recorded, parents, name)
  {
    BelowStep(users, groups, parents, name);
  }

  lemma NothingBelow(
      users: set<Name>, groups: map<Name, Group>, recorded: map<Name, set<Name>>, parents: seq<Name>, name: Name)
    requires name in parents || MembersOf(groups, name) == []
    ensures RecordedBelow(users, groups, recorded, parents, name)
  {
    BelowStep(users, groups, parents, name);
  }

  lemma ExtendChain(users: set<Name>, groups: map<Name, Group>, path: seq<Name>, m: Name)
    requires Chain(users, groups, path) && Nests(users, groups, path[|path| - 1], m)
    ensures Chain(users, groups, path + [m])
  {
  }

  /* ---------- Access lists ---------- */

  predicate HasPrefix(s: string, p: string) {
    |p| <= |s| && s[..|p|] == p
  }

  predicate HasSuffix(s: string, x: string) {
    |x| <= |s| && s[|s| - |x|..] == x
  }

  predicate RepoMatches(pattern: string, repo: string) {
    pattern == repo || (HasSuffix(pattern, "*") && HasPrefix(repo, pattern[..|pattern| - 1]))
  }

  predicate UserMatches(acl: Acl, user: Name, belongs: set<Name>) {
    if user == "" then acl.anonymous
    else user in acl.members || exists g :: g in belongs && g in acl.members
  }

  predicate AclMatches(acl: Acl, repo: string, user: Name, belongs: set<Name>) {
    RepoMatches(acl.repo, repo) && UserMatches(acl, user, belongs)
  }

  predicate Grants(acl: Acl, access: Access) {
    access in acl.access || All in acl.access
  }

  /** The deciding access list: the last of the longest patterns that match. */
  predicate Decides(acls: seq<Acl>, repo: string, user: Name, belongs: set<Name>, i: int) {
    && 0 <= i < |acls|
    && AclMatches(acls[i], repo, user, belongs)
    && forall j | 0 <= j < |acls| && AclMatches(acls[j], repo, user, belongs) ::
         |acls[j].repo| < |acls[i].repo| || (|acls[j].repo| == |acls[i].repo| && j <= i)
  }

  predicate NoneMatch(acls: seq<Acl>, repo: string, user: Name, belongs: set<Name>) {
    forall j | 0 <= j < |acls| :: !AclMatches(acls[j], repo, user, belongs)
  }

  /** The verdict is that of the deciding access list; no access if none matches. */
  ghost predicate IsVerdict(
      acls: seq<Acl>, repo: string, access: Access, user: Name, belongs: set<Name>, result: bool)
  {
    || (NoneMatch(acls, repo, user, belongs) && !result)
    || exists i :: Decides(acls, repo, user, belongs, i) && result == Grants(acls[i], access)
  }

  /** There is exactly one verdict. */
  lemma VerdictUnique(acls: seq<Acl>, repo: string, access: Access, user: Name, belongs: set<Name>, a: bool, b: bool)
    requires IsVerdict(acls, repo, access, user, belongs, a) && IsVerdict(acls, repo, access, user, belongs, b)
    ensures a == b
  {
  }

  /** Matching patterns all have different lengths. */
  predicate DistinctLengths(acls: seq<Acl>, repo: string, user: Name, belongs: set<Name>) {
    forall i, j | 0 <= i < j < |acls| &&
                  AclMatches(acls[i], repo, user, belongs) && AclMatches(acls[j], repo, user, belongs) ::
      |acls[i].repo| != |acls[j].repo|
  }

  /** When the matching patterns differ in length, the order of the access lists does not matter. */
  lemma OrderIrrelevant(
      acls: seq<Acl>, other: seq<Acl>, repo: string, access: Access, user: Name, belongs: set<Name>, a: bool, b: bool)
    requires multiset(acls) == multiset(other)
    requires DistinctLengths(acls, repo, user, belongs)
    requires IsVerdict(acls, repo, access, user, belongs, a) && IsVerdict(other, repo, access, user, belongs, b)
    ensures a == b
  {
    SameElements(acls, other);
    if i :| Decides(acls, repo, user, belongs, i) && a == Grants(acls[i], access) {
      assert acls[i] in other;
      var k :| Decides(other, repo, user, belongs, k) && b == Grants(other[k], access);
      assert other[k] in acls;
      var m :| 0 <= m < |acls| && acls[m] == other[k];
      var n :| 0 <= n < |other| && other[n] == acls[i];
      assert |acls[m].repo| == |acls[i].repo|;
    } else if k :| Decides(other, repo, user, belongs, k) && b == Grants(other[k], access) {
      assert other[k] in acls;
    }
  }

  lemma SameElements<T>(a: seq<T>, b: seq<T>)
    requires multiset(a) == multiset(b)
    ensures forall x :: x in a <==> x in b
  {
    forall x ensures x in a <==> x in b {
      assert x in a <==> x in multiset(a);
      assert x in b <==> x in multiset(b);
    }
  }

  /* ---------- What the verdict means ---------- */

  /** A pattern that does not end in a star matches its own name only; `stem + "*"` matches that literal name and
      exactly the names that begin with the stem. */
  lemma PatternMeaning(pattern: string, repo: string)
    ensures (pattern == "" || pattern[|pattern| - 1] != '*') ==> (RepoMatches(pattern, repo) <==> repo == pattern)
    ensures forall stem | pattern == stem + "*" ::
              RepoMatches(pattern, repo) <==> repo == pattern || exists rest :: repo == stem + rest
  {
    forall stem | pattern == stem + "*"
      ensures RepoMatches(pattern, repo) <==> repo == pattern || exists rest :: repo == stem + rest
    {
      assert pattern[|pattern| - 1..] == "*" && pattern[..|pattern| - 1] == stem;
      if HasPrefix(repo, stem) {
        assert repo == stem + repo[|stem|..];
      }
    }
  }

  /** The pattern is the name, or a stem of the name followed by a star. */
  ghost predicate Covers(pattern: string, repo: string) {
    pattern == repo || exists stem, rest :: pattern == stem + "*" && repo == stem + rest
  }

  lemma CoversIff(pattern: string, repo: string)
    ensures RepoMatches(pattern, repo) <==> Covers(pattern, repo)
  {
    PatternMeaning(pattern, repo);
    if pattern != "" && pattern[|pattern| - 1] == '*' {
      assert pattern == pattern[..|pattern| - 1] + "*";
    }
  }

  /** The list names the user, or a group the user belongs to; the empty user is nobody, and is let in only by the
      anonymous flag. */
  ghost predicate Admits(users: set<Name>, groups: map<Name, Group>, acl: Acl, user: Name) {
    || (user == "" && acl.anonymous)
    || (user != "" && (user in acl.members || exists g :: Belongs(users, groups, g, user) && g in acl.members))
  }

  ghost predicate Applies(users: set<Name>, groups: map<Name, Group>, acl: Acl, repo: string, user: Name) {
    Covers(acl.repo, repo) && Admits(users, groups, acl, user)
  }

  /** The ruling on a request: that of the last list among the longest patterns that apply, which grants what it
      names, and everything if it names All; and no access if no list applies. */
  ghost predicate Ruling(
      users: set<Name>, groups: map<Name, Group>, acls: seq<Acl>, repo: string, access: Access, user: Name,
      result: bool)
  {
    || (!result && forall j | 0 <= j < |acls| :: !Applies(users, groups, acls[j], repo, user))
    || exists i ::
         && 0 <= i < |acls| && Applies(users, groups, acls[i], repo, user)
         && (forall j | 0 <= j < |acls| && Applies(users, groups, acls[j], repo, user) ::
               |acls[j].repo| < |acls[i].repo| || (|acls[j].repo| == |acls[i].repo| && j <= i))
         && (result <==> access in acls[i].access || All in acls[i].access)
  }

  lemma AppliesIff(users: set<Name>, groups: map<Name, Group>, acl: Acl, repo: string, user: Name)
    ensures AclMatches(acl, repo, user, Closure(users, groups, user)) <==> Applies(users, groups, acl, repo, user)
  {
    CoversIff(acl.repo, repo);
    forall g | Belongs(users, groups, g, user) ensures g in groups {
      BelongsListed(users, groups, g, user);
    }
  }

  lemma VerdictRules(
      users: set<Name>, groups: map<Name, Group>, acls: seq<Acl>, repo: string, access: Access, user: Name,
      result: bool)
    requires IsVerdict(acls, repo, access, user, Closure(users, groups, user), result)
    ensures Ruling(users, groups, acls, repo, access, user, result)
  {
    var belongs := Closure(users, groups, user);
    forall j | 0 <= j < |acls|
      ensures AclMatches(acls[j], repo, user, belongs) <==> Applies(users, groups, acls[j], repo, user)
    {
      AppliesIff(users, groups, acls[j], repo, user);
    }
    if i :| Decides(acls, repo, user, belongs, i) && result == Grants(acls[i], access) {
      assert Applies(users, groups, acls[i], repo, user);
    }
  }

  /* ---------- The configuration object ---------- */

  class AuthConf {
    const users: set<Name>
    const groups: map<Name, Group>
    const acls: seq<Acl>
    /** The groups recorded for each user. */
    var userGroups: map<Name, set<Name>>

    constructor (users: set<Name>, groups: map<Name, Group>, acls: seq<Acl>)
      ensures this.users == users && this.groups == groups && this.acls == acls
      ensures userGroups == map[]
    {
      this.users, this.groups, this.acls := users, groups, acls;
      userGroups := map[];
    }

    /** The recorded groups are exactly those of the closure. */
    ghost predicate Mapped()
      reads this
    {
      forall u, g :: g in GroupsOf(u) <==> Belongs(users, groups, g, u)
    }

    function GroupsOf(u: Name): set<Name>
      reads this
    {
      GroupsIn(userGroups, u)
    }

    method Record(u: Name, path: seq<Name>)
      requires u in users && OnlyMembers(users, groups, userGroups)
      requires Chain(users, groups, path) && u in MembersOf(groups, path[|path| - 1])
      modifies this
      ensures Grows(old(userGroups), userGroups) && OnlyMembers(users, groups, userGroups)
      ensures forall cur | cur in path :: cur in GroupsIn(userGroups, u)
    {
      forall cur | cur in path ensures Belongs(users, groups, cur, u) {
        var i :| 0 <= i < |path| && path[i] == cur;
        assert ChainTo(users, groups, path[i..], cur, u);
      }
      userGroups := userGroups[u := GroupsOf(u) + set cur | cur in path];
    }

    /** Adds group `name`, and the groups that nest it, to each user below it. */
    method GroupMap(name: Name, parents: seq<Name>)
      requires OnlyMembers(users, groups, userGroups)
      requires Chain(users, groups, parents + [name])
      modifies this
      ensures Grows(old(userGroups), userGroups) && OnlyMembers(users, groups, userGroups)
      ensures RecordedBelow(users, groups, userGroups, parents, name)
      decreases groups.Keys - (set x | x in parents)
    {
      if name in parents {
        NothingBelow(users, groups, userGroups, parents, name);
        return;
      }
      if name !in groups || groups[name].Missing? {
        NothingBelow(users, groups, userGroups, parents, name);
        return;
      }
      var members := groups[name].members;
      var path := parents + [name];
      for i := 0 to |members|
        invariant Grows(old(userGroups), userGroups) && OnlyMembers(users, groups, userGroups)
        invariant Recorded(users, groups, userGroups, path, members[..i])
      {
        ghost var before := userGroups;
        if members[i] in users {
          Record(members[i], path);
        } else {
          ExtendChain(users, groups, path, members[i]);
          assert name in path && name in groups.Keys - (set x | x in parents);
          assert groups.Keys - (set x | x in path) < groups.Keys - (set x | x in parents);
          GroupMap(members[i], path);
        }
        RecordedSnoc(users, groups, before, userGroups, path, members, i);
      }
      assert members[..|members|] == members;
      RecordedAll(users, groups, userGroups, parents, name);
    }

    /** Maps the users of every group of the file; afterwards a user's groups are exactly those the user
        belongs to, through any nesting, cyclic or not. */
    method MapGroups()
      requires userGroups == map[]
      modifies this
      ensures Mapped()
    {
      var todo := groups.Keys;
      while todo != {}
        invariant OnlyMembers(users, groups, userGroups)
        invariant forall g, u | g in groups && g !in todo && Belongs(users, groups, g, u) ::
                    g in GroupsIn(userGroups, u)
        decreases todo
      {
        var g :| g in todo;
        todo := todo - {g};
        assert [] + [g] == [g];
        GroupMap(g, []);
        forall u | Belongs(users, groups, g, u) ensures g in GroupsIn(userGroups, u) {
          var p :| ChainTo(users, groups, p, g, u);
          var q := SimpleChain(users, groups, p, g, u);
          assert Walk(users, groups, q, [], g, u);
          assert g in [] + [g];
        }
      }
      forall g, u | Belongs(users, groups, g, u) ensures g in groups {
        BelongsListed(users, groups, g, u);
      }
    }

    /** Whether `user` has `access` to `repo`; the empty user is anonymous. Once the groups are mapped, the verdict
        is that of all groups the user belongs to, through any nesting. */
    method CheckAccess(repo: string, access: Access, user: Name) returns (result: bool)
      ensures IsVerdict(acls, repo, access, user, GroupsOf(user), result)
      ensures Mapped() ==> IsVerdict(acls, repo, access, user, Closure(users, groups, user), result)
      ensures Mapped() ==> Ruling(users, groups, acls, repo, access, user, result)
    {
      var bestRepo := "";
      result := false;
      ghost var best := -1;
      for i := 0 to |acls|
        invariant -1 <= best < i
        invariant best == -1 ==> bestRepo == "" && !result && NoneMatch(acls[..i], repo, user, GroupsOf(user))
        invariant best >= 0 ==> bestRepo == acls[best].repo && result == Grants(acls[best], access)
        invariant best >= 0 ==> Decides(acls[..i], repo, user, GroupsOf(user), best)
      {
        var acl := acls[i];
        assert acls[..i + 1] == acls[..i] + [acl];
        if |acl.repo| < |bestRepo| || !RepoMatches(acl.repo, repo) {
          continue;
        }
        var userMatch := user == "" && acl.anonymous;
        if user != "" {
          userMatch := user in acl.members;
          if !userMatch {
            userMatch := exists g :: g in GroupsOf(user) && g in acl.members;
          }
        }
        if !userMatch {
          continue;
        }
        bestRepo := acl.repo;
        result := access in acl.access || All in acl.access;
        best := i;
      }
      assert acls[..|acls|] == acls;
      if Mapped() {
        MappedClosure(user);
        VerdictRules(users, groups, acls, repo, access, user, result);
      }
    }

    lemma MappedClosure(u: Name)
      requires Mapped()
      ensures GroupsOf(u) == Closure(users, groups, u)
    {
      forall g | Belongs(users, groups, g, u) ensures g in groups {
        BelongsListed(users, groups, g, u);
      }
    }
  }
}
