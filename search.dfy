/** The two pure derivations over the user list: the live, case-insensitive
    substring filter that decides which users are listed, and the
    case-insensitive exact-match lookup that the Enter key commits. */
module Search {
  import opened Users

  /** The filter test: the lower-cased name contains the lower-cased query. */
  predicate Matches(u: User, query: string): (r: bool)
    ensures query == "" ==> r
    ensures Lower(u.name) == Lower(query) ==> r
    ensures |u.name| < |query| ==> !r
  {
    Contains(Lower(u.name), Lower(query))
  }

  /** The lookup test: the lower-cased name equals the lower-cased query. */
  predicate NameEquals(u: User, query: string): (r: bool)
    ensures r ==> |u.name| == |query|
    ensures u.name == query ==> r
  {
    Lower(u.name) == Lower(query)
  }

  /** `r` is `s` with some elements dropped, the rest kept in their order. */
  ghost predicate IsSubsequence<T>(r: seq<T>, s: seq<T>)
    decreases |s|
  {
    if r == [] then true
    else if s == [] then false
    else (r[0] == s[0] && IsSubsequence(r[1..], s[1..])) || IsSubsequence(r, s[1..])
  }

  /** `users.filter(user => Matches(user, query))`: the users listed for a query. */
  function Filter(users: seq<User>, query: string): (r: seq<User>)
    ensures |r| <= |users|
    ensures forall u :: u in r <==> u in users && Matches(u, query)
  {
    if users == [] then []
    else (if Matches(users[0], query) then [users[0]] else []) + Filter(users[1..], query)
  }

  /** The filter keeps the users it lists in their original order. */
  lemma {:induction false} FilterIsSubsequence(users: seq<User>, query: string)
    ensures IsSubsequence(Filter(users, query), users)
  {
    if users != [] {
      FilterIsSubsequence(users[1..], query);
      var rest := Filter(users[1..], query);
      if Matches(users[0], query) {
        assert Filter(users, query) == [users[0]] + rest;
        assert ([users[0]] + rest)[1..] == rest;
      } else {
        assert Filter(users, query) == rest;
      }
    }
  }

  /** Each user occurs in the result once for every time it occurs in the
      input if it matches, and not at all if it does not: together with
      `FilterIsSubsequence` this pins the result down completely. */
  lemma {:induction false} FilterCount(users: seq<User>, query: string, u: User)
    ensures multiset(Filter(users, query))[u]
         == if Matches(u, query) then multiset(users)[u] else 0
  {
    if users != [] {
      FilterCount(users[1..], query, u);
      assert users == [users[0]] + users[1..];
      assert multiset(users) == multiset([users[0]]) + multiset(users[1..]);
    }
  }

  /** The empty query lists every user, unchanged and in order. */
  lemma {:induction false} FilterEmptyQuery(users: seq<User>)
    ensures Filter(users, "") == users
  {
    if users != [] {
      assert Matches(users[0], "");
      FilterEmptyQuery(users[1..]);
      assert users == [users[0]] + users[1..];
    }
  }

  /** Filtering keeps distinct ids distinct, so at most one listed item is
      marked selected (`Users.AtMostOneSelected`). */
  lemma {:induction false} FilterKeepsUniqueIds(users: seq<User>, query: string)
    requires UniqueIds(users)
    ensures UniqueIds(Filter(users, query))
  {
    if users != [] {
      var rest := Filter(users[1..], query);
      assert UniqueIds(users[1..]) by {
        forall i, j | 0 <= i < j < |users[1..]| ensures users[1..][i].id != users[1..][j].id {
          assert users[1..][i] == users[i + 1] && users[1..][j] == users[j + 1];
        }
      }
      FilterKeepsUniqueIds(users[1..], query);
      if Matches(users[0], query) {
        var r := [users[0]] + rest;
        assert Filter(users, query) == r;
        forall i, j | 0 <= i < j < |r| ensures r[i].id != r[j].id {
          if i == 0 {
            assert r[j] == rest[j - 1];
            assert r[j] in users[1..];
            var k :| 0 <= k < |users[1..]| && users[1..][k] == r[j];
            assert users[k + 1] == r[j];
          } else {
            assert r[i] == rest[i - 1] && r[j] == rest[j - 1];
          }
        }
      }
    }
  }

  /** `users.find(user => NameEquals(user, query))`: the first user, in list
      order, whose name equals the query up to case. */
  function FindExact(users: seq<User>, query: string): (r: Option<User>)
    ensures r.None? <==> forall i :: 0 <= i < |users| ==> !NameEquals(users[i], query)
    ensures r.Some? ==> exists i :: 0 <= i < |users| && users[i] == r.value
                          && NameEquals(r.value, query)
                          && forall j :: 0 <= j < i ==> !NameEquals(users[j], query)
  {
    if users == [] then None
    else if NameEquals(users[0], query) then Some(users[0])
    else
      var r := FindExact(users[1..], query);
      assert forall i :: 1 <= i < |users| ==> users[i] == users[1..][i - 1];
      r
  }

  /** An exact match is also a substring match, so the record the Enter key
      selects is always among the listed ones. */
  lemma ExactMatchIsListed(users: seq<User>, query: string)
    ensures FindExact(users, query).Some? ==> FindExact(users, query).value in Filter(users, query)
  {
  }

  /** Looking the query up in the full list, as the source does, gives the
      same record as looking it up in the filtered list would. */
  lemma {:induction false} FindExactOnFiltered(users: seq<User>, query: string)
    ensures FindExact(Filter(users, query), query) == FindExact(users, query)
  {
    if users != [] {
      FindExactOnFiltered(users[1..], query);
      var rest := Filter(users[1..], query);
      if Matches(users[0], query) {
        assert Filter(users, query) == [users[0]] + rest;
        assert ([users[0]] + rest)[1..] == rest;
      } else {
        assert Filter(users, query) == rest;
        if NameEquals(users[0], query) {
                assert false;
        }
      }
    }
  }
}
