/** The users page: the nickname-or-id search and the "most recently
    accessed first" ordering. */
module Users {
  import opened Wrappers
  import opened Strings
  import opened Sequences

  /** A user as listed; `lastAccessedAt` is the parsed timestamp, absent when null. */
  datatype User = User(id: int, nickname: Option<string>, lastAccessedAt: Option<int>)

  /** `formatDate`: a dash for a missing date, otherwise the locale's rendering. */
  function FormatDate(date: Option<string>, localeFormat: string -> string): (r: string)
    ensures date.None? || date.value == "" ==> r == "-"
    ensures date.Some? && date.value != "" ==> r == localeFormat(date.value)
  {
    if date.None? || date.value == "" then "-" else localeFormat(date.value)
  }

  /** The nickname (missing counts as empty) contains the term ignoring case,
      or the id's decimal text contains the term as typed. */
  predicate MatchesSearch(u: User, term: string, fold: char -> char) {
    Contains(Lower(u.nickname.GetOr(""), fold), Lower(term, fold)) || Contains(IntToString(u.id), term)
  }

  /** The `sort` comparator: negative when `a` goes first. */
  function Compare(a: User, b: User): int {
    if a.lastAccessedAt.None? && b.lastAccessedAt.None? then 0
    else if a.lastAccessedAt.None? then 1
    else if b.lastAccessedAt.None? then -1
    else b.lastAccessedAt.value - a.lastAccessedAt.value
  }

  /** `a` goes strictly first exactly when it has an access time and `b` has
      none or an earlier one; the two tie exactly when their times agree. */
  lemma CompareOrder(a: User, b: User)
    ensures Compare(a, b) < 0 <==>
      a.lastAccessedAt.Some? && (b.lastAccessedAt.None? || a.lastAccessedAt.value > b.lastAccessedAt.value)
    ensures Compare(a, b) == 0 <==> a.lastAccessedAt == b.lastAccessedAt
  {
  }

  lemma CompareAntisymmetric(a: User, b: User)
    ensures Compare(a, b) == -Compare(b, a)
  {
  }

  lemma CompareTransitive(a: User, b: User, c: User)
    requires Compare(a, b) <= 0 && Compare(b, c) <= 0
    ensures Compare(a, c) <= 0
  {
  }

  /** Every user is in comparator order with every later one. */
  ghost predicate Sorted(s: seq<User>) {
    forall i, j :: 0 <= i < j < |s| ==> Compare(s[i], s[j]) <= 0
  }

  function Insert(u: User, s: seq<User>): (r: seq<User>)
    requires Sorted(s)
    ensures Sorted(r)
    ensures multiset(r) == multiset(s) + multiset{u}
  {
    if s == [] then [u]
    else if Compare(u, s[0]) <= 0 then
      forall j | 0 <= j < |s| ensures Compare(u, s[j]) <= 0 {
        if j > 0 { CompareTransitive(u, s[0], s[j]); }
      }
      [u] + s
    else
      CompareAntisymmetric(u, s[0]);
      assert s == [s[0]] + s[1..];
      var t := Insert(u, s[1..]);
      assert forall j :: 0 <= j < |t| ==> Compare(s[0], t[j]) <= 0 by {
        forall j | 0 <= j < |t| ensures Compare(s[0], t[j]) <= 0 {
          assert t[j] in multiset(t);
          if t[j] != u {
            assert t[j] in multiset(s[1..]);
            FirstBeforeRest(s, t[j]);
          }
        }
      }
      ConsSorted(s[0], t);
      [s[0]] + t
  }

  lemma FirstBeforeRest(s: seq<User>, x: User)
    requires Sorted(s) && s != [] && x in s[1..]
    ensures Compare(s[0], x) <= 0
  {
    var k :| 0 <= k < |s[1..]| && s[1..][k] == x;
    assert s[k + 1] == x;
  }

  lemma ConsSorted(x: User, t: seq<User>)
    requires Sorted(t)
    requires forall j :: 0 <= j < |t| ==> Compare(x, t[j]) <= 0
    ensures Sorted([x] + t)
  {
    var s := [x] + t;
    forall i, j | 0 <= i < j < |s| ensures Compare(s[i], s[j]) <= 0 {
      if i > 0 {
        assert s[i] == t[i - 1] && s[j] == t[j - 1];
      } else {
        assert s[j] == t[j - 1];
      }
    }
  }

  /** The array sort, as a stable insertion sort. */
  function SortByAccess(s: seq<User>): (r: seq<User>)
    ensures Sorted(r)
    ensures multiset(r) == multiset(s)
  {
    if s == [] then []
    else
      assert s == [s[0]] + s[1..];
      Insert(s[0], SortByAccess(s[1..]))
  }

  /** In a sorted list every user with an access time precedes every user without one. */
  lemma NeverAccessedLast(s: seq<User>, i: int, j: int)
    requires Sorted(s)
    requires 0 <= i < |s| && 0 <= j < |s|
    requires s[i].lastAccessedAt.Some? && s[j].lastAccessedAt.None?
    ensures i < j
  {
  }

  /** Among users with an access time, later times come first. */
  lemma MostRecentFirst(s: seq<User>, i: int, j: int)
    requires Sorted(s)
    requires 0 <= i < j < |s|
    requires s[i].lastAccessedAt.Some? && s[j].lastAccessedAt.Some?
    ensures s[i].lastAccessedAt.value >= s[j].lastAccessedAt.value
  {
    assert Compare(s[i], s[j]) <= 0;
  }

  /** The search as occurrences: the folded term at some index of the folded
      nickname, or the term at some index of the id's decimal text. */
  lemma MatchesSearchIff(u: User, term: string, fold: char -> char)
    ensures MatchesSearch(u, term, fold) <==>
      (exists i :: OccursAt(Lower(u.nickname.GetOr(""), fold), Lower(term, fold), i)) ||
      (exists i :: OccursAt(IntToString(u.id), term, i))
  {
    var nickname, t, id := Lower(u.nickname.GetOr(""), fold), Lower(term, fold), IntToString(u.id);
    ContainsIff(nickname, t);
    ContainsIff(id, term);
    if Contains(nickname, t) {
      var k :| OccursAt(nickname, t, k);
      assert exists i :: OccursAt(Lower(u.nickname.GetOr(""), fold), Lower(term, fold), i);
    }
    if Contains(id, term) {
      var k :| OccursAt(id, term, k);
      assert exists i :: OccursAt(IntToString(u.id), term, i);
    }
  }

  /** The `filter` callback for a search term. */
  function SearchFilter(term: string, fold: char -> char): (keep: User -> bool)
    ensures forall u :: keep(u) <==>
      (exists i :: OccursAt(Lower(u.nickname.GetOr(""), fold), Lower(term, fold), i)) ||
      (exists i :: OccursAt(IntToString(u.id), term, i))
    ensures forall u :: keep(u) == MatchesSearch(u, term, fold)
  {
    assert forall u :: MatchesSearch(u, term, fold) <==>
      (exists i :: OccursAt(Lower(u.nickname.GetOr(""), fold), Lower(term, fold), i)) ||
      (exists i :: OccursAt(IntToString(u.id), term, i)) by {
      forall u {
        MatchesSearchIff(u, term, fold);
      }
    }
    u => MatchesSearch(u, term, fold)
  }

  /** `filteredUsers`: the matching users, most recently accessed first. */
  function FilteredUsers(users: seq<User>, term: string, fold: char -> char): (r: seq<User>)
    ensures Sorted(r)
    ensures forall i :: 0 <= i < |r| ==> MatchesSearch(r[i], term, fold) && r[i] in users
    ensures forall u :: u in users && MatchesSearch(u, term, fold) ==> u in r
    ensures multiset(r) == multiset(Filter(users, SearchFilter(term, fold)))
  {
    var keep := SearchFilter(term, fold);
    var kept := Filter(users, keep);
    FilterIsSubsequence(users, keep);
    var r := SortByAccess(kept);
    PermutationKeeps(r, kept, users, keep);
    PermutationCovers(r, kept);
    r
  }

  /** An empty search lists everyone, reordered. */
  lemma EmptySearchKeepsEveryone(users: seq<User>, fold: char -> char)
    ensures multiset(FilteredUsers(users, "", fold)) == multiset(users)
  {
    var keep := SearchFilter("", fold);
    forall i | 0 <= i < |users|
      ensures keep(users[i])
    {
      ContainsEmpty(IntToString(users[i].id));
    }
    FilterAllKept(users, keep);
  }
}
