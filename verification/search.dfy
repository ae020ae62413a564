/**
 The user records and the name search of js/script.js.
 */
module Search {
  import opened Text

  /** One profile from the remote batch; the fields the directory reads, all as received. */
  datatype User = User(
    first: string,
    last: string,
    email: string,
    cell: string,
    streetNumber: int,
    streetName: string,
    city: string,
    state: string,
    country: string,
    postcode: string,
    dob: string,
    picture: string)

  /** The searchable name: first and last name joined by one space, lower-cased. */
  function SearchName(u: User): (r: string)
    ensures r == Lower(u.first) + " " + Lower(u.last)
    ensures forall i :: 0 <= i < |r| ==> !IsUpper(r[i])
  {
    LowerAppend(u.first + " ", u.last);
    LowerAppend(u.first, " ");
    Lower(u.first + " " + u.last)
  }

  /** The query as the search compares it: lower-cased, then trimmed. */
  function Normalise(text: string): (q: string)
    ensures q == [] || (!IsWhiteSpace(q[0]) && !IsWhiteSpace(q[|q| - 1]))
    ensures forall i :: 0 <= i < |q| ==> !IsUpper(q[i])
  {
    Trim(Lower(text))
  }

  /** An empty or all-white-space query, and only such a query, normalises to nothing. */
  lemma NormaliseEmptyIffBlank(text: string)
    ensures Normalise(text) == [] <==> forall i :: 0 <= i < |text| ==> IsWhiteSpace(text[i])
  {
  }

  /** `fullName.includes(searchText)`: the query occurs somewhere in the search name. */
  predicate Matches(u: User, q: string)
    ensures Matches(u, q) <==> exists i: nat :: OccursAt(SearchName(u), q, i)
  {
    ContainsIff(SearchName(u), q);
    Contains(SearchName(u), q)
  }

  /**
   `allUsers.filter(...)`: the users whose search name contains `q`. The result
   is exactly the matching users in their original order: its j-th entry is the
   user at the j-th matching position.
   */
  function Filter(users: seq<User>, q: string): (r: seq<User>)
    ensures |r| <= |users|
    ensures forall j :: 0 <= j < |r| ==> Matches(r[j], q)
    ensures |r| == |Positions(users, q)|
    ensures forall j :: 0 <= j < |r| ==> r[j] == users[Positions(users, q)[j]]
  {
    FilterFromPicksPositions(users, q, 0);
    FilterFrom(users, q, 0)
  }

  /** The filter applied to `users[from..]`, scanning left to right. */
  function FilterFrom(users: seq<User>, q: string, from: nat): (r: seq<User>)
    requires from <= |users|
    ensures |r| <= |users| - from
    ensures forall j :: 0 <= j < |r| ==> Matches(r[j], q)
    decreases |users| - from
  {
    if from == |users| then []
    else (if Matches(users[from], q) then [users[from]] else []) + FilterFrom(users, q, from + 1)
  }

  /** The positions at or after `from` of the users matching `q`, in increasing order. */
  function PositionsFrom(users: seq<User>, q: string, from: nat): (p: seq<nat>)
    requires from <= |users|
    ensures forall j :: 0 <= j < |p| ==> from <= p[j] < |users| && Matches(users[p[j]], q)
    ensures forall j, k :: 0 <= j < k < |p| ==> p[j] < p[k]
    ensures forall i :: from <= i < |users| && Matches(users[i], q) ==> i in p
    decreases |users| - from
  {
    if from == |users| then []
    else (if Matches(users[from], q) then [from] else []) + PositionsFrom(users, q, from + 1)
  }

  /** The positions in `users` of the users matching `q`. */
  function Positions(users: seq<User>, q: string): (p: seq<nat>)
    ensures forall j :: 0 <= j < |p| ==> p[j] < |users| && Matches(users[p[j]], q)
    ensures forall j, k :: 0 <= j < k < |p| ==> p[j] < p[k]
    ensures forall i :: 0 <= i < |users| && Matches(users[i], q) ==> i in p
  {
    PositionsFrom(users, q, 0)
  }

  lemma {:induction false} FilterFromPicksPositions(users: seq<User>, q: string, from: nat)
    requires from <= |users|
    ensures |FilterFrom(users, q, from)| == |PositionsFrom(users, q, from)|
    ensures forall j :: 0 <= j < |FilterFrom(users, q, from)| ==>
              FilterFrom(users, q, from)[j] == users[PositionsFrom(users, q, from)[j]]
    decreases |users| - from
  {
    if from < |users| {
      FilterFromPicksPositions(users, q, from + 1);
      var r, p := FilterFrom(users, q, from), PositionsFrom(users, q, from);
      var r', p' := FilterFrom(users, q, from + 1), PositionsFrom(users, q, from + 1);
      if Matches(users[from], q) {
        assert r == [users[from]] + r' && p == [from] + p';
        forall j | 0 < j < |r|
          ensures r[j] == users[p[j]]
        {
          assert r[j] == r'[j - 1] && p[j] == p'[j - 1];
        }
      } else {
        assert r == r' && p == p';
      }
    }
  }

  /** Nothing is found exactly when no user matches. */
  lemma FilterEmptyIffNoMatch(users: seq<User>, q: string)
    ensures Filter(users, q) == [] <==> forall i :: 0 <= i < |users| ==> !Matches(users[i], q)
  {
    var r, p := Filter(users, q), Positions(users, q);
    if exists i :: 0 <= i < |users| && Matches(users[i], q) {
      var i :| 0 <= i < |users| && Matches(users[i], q);
      assert i in p;
    }
    if r != [] {
      assert r[0] == users[p[0]] && Matches(r[0], q);
    }
  }

  /** Filtering a suffix by the empty query gives back that whole suffix. */
  lemma {:induction false} FilterFromEmptyQuery(users: seq<User>, from: nat)
    requires from <= |users|
    ensures FilterFrom(users, [], from) == users[from..]
    decreases |users| - from
  {
    if from < |users| {
      assert Matches(users[from], []);
      FilterFromEmptyQuery(users, from + 1);
    }
  }

  /** An empty query matches every user, so filtering with it keeps everyone. */
  lemma FilterEmptyQueryKeepsAll(users: seq<User>)
    ensures Filter(users, []) == users
  {
    FilterFromEmptyQuery(users, 0);
  }

}
