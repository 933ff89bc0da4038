/** The in-memory member store. `list` is the mutable `membersList`; `snapshot`
    is the value last published on the observable `members` flow. Each
    operation returns the store it leaves behind. */
module Repository {
  import opened Wrappers
  import opened Members
  import opened MembershipTypes
  import opened Text
  import Seqs

  datatype Store = Store(list: seq<Member>, snapshot: seq<Member>)

  /** The published snapshot mirrors the list. */
  predicate Published(s: Store)
  {
    s.snapshot == s.list
  }

  /** Some member has identifier `id`. */
  predicate HasId(ms: seq<Member>, id: string)
  {
    exists j :: 0 <= j < |ms| && ms[j].id == id
  }

  /** `i` is the first position holding identifier `id`. */
  predicate IsFirstWithId(ms: seq<Member>, id: string, i: int)
  {
    && 0 <= i < |ms|
    && ms[i].id == id
    && forall j | 0 <= j < i :: ms[j].id != id
  }

  /** No two members share an identifier. The store does not enforce it. */
  predicate UniqueIds(ms: seq<Member>)
  {
    forall i, j | 0 <= i < j < |ms| :: ms[i].id != ms[j].id
  }

  function IdIs(id: string): Member -> bool
  {
    (m: Member) => m.id == id
  }

  function IdIsNot(id: string): Member -> bool
  {
    (m: Member) => m.id != id
  }

  // ---------------------------------------------------------------------
  // Construction

  /** The three sample members loaded at construction. */
  function DummyMembers(): seq<Member>
  {
    [ NewMember("1", "John Doe", "john@email.com", "081234567890",
                Premium, "01/01/2024", "01/02/2024"),
      NewMember("2", "Jane Smith", "jane@email.com", "081234567891",
                Vip, "15/01/2024", "15/02/2024"),
      NewMember("3", "Bob Wilson", "bob@email.com", "081234567892",
                Basic, "20/01/2024", "20/02/2024", false) ]
  }

  /** A fresh repository: both the list and the flow start empty, then the
      sample members are added and published. */
  function Init(): (s: Store)
    ensures Published(s)
    ensures |s.list| == 3
    ensures s.list[0].id == "1" && s.list[1].id == "2" && s.list[2].id == "3"
    ensures UniqueIds(s.list)
    ensures forall i | 0 <= i < |s.list| :: !s.list[i].isActive <==> s.list[i].id == "3"
  {
    var empty := Store([], []);
    var list := empty.list + DummyMembers();
    Store(list, list)
  }

  // ---------------------------------------------------------------------
  // Operations

  /** `addMember`: append at the end and publish. */
  function AddMember(s: Store, m: Member): (r: Store)
    ensures |r.list| == |s.list| + 1
    ensures r.list[..|s.list|] == s.list && r.list[|s.list|] == m
    ensures Published(r)
  {
    var list := s.list + [m];
    Store(list, list)
  }

  /** `getAllMembers`: the live list, not the snapshot. */
  function GetAllMembers(s: Store): (r: seq<Member>)
    ensures r == s.list
    ensures Published(s) ==> r == s.snapshot
  {
    s.list
  }

  /** `indexOfFirst { it.id == id }`. */
  function IndexOfFirst(ms: seq<Member>, id: string): (i: int)
    ensures -1 <= i < |ms|
    ensures i == -1 <==> !HasId(ms, id)
    ensures i != -1 ==> IsFirstWithId(ms, id, i)
  {
    if |ms| == 0 then -1
    else if ms[0].id == id then 0
    else
      var k := IndexOfFirst(ms[1..], id);
      if k == -1 then
        assert forall j | 1 <= j < |ms| :: ms[j] == ms[1..][j - 1];
        -1
      else
        assert forall j | 1 <= j < k + 1 :: ms[j] == ms[1..][j - 1];
        k + 1
  }

  /** The first position holding an identifier is unique. */
  lemma FirstWithIdUnique(ms: seq<Member>, id: string, i: int, j: int)
    requires IsFirstWithId(ms, id, i) && IsFirstWithId(ms, id, j)
    ensures i == j
  {
  }

  /** `getMemberById`: the first member with the identifier, or null. */
  function GetMemberById(s: Store, id: string): (r: Option<Member>)
    ensures r.None? <==> !HasId(s.list, id)
    ensures r.Some? ==> exists i :: IsFirstWithId(s.list, id, i) && s.list[i] == r.value
  {
    var i := IndexOfFirst(s.list, id);
    if i == -1 then None else Some(s.list[i])
  }

  /** `updateMember`: replace the first member whose identifier is `m.id` and
      publish; without such a member nothing happens, not even a publish. */
  function UpdateMember(s: Store, m: Member): (r: Store)
    ensures !HasId(s.list, m.id) ==> r == s
    ensures HasId(s.list, m.id) ==>
      && Published(r)
      && |r.list| == |s.list|
      && exists i :: IsFirstWithId(s.list, m.id, i) && r.list[i] == m &&
           forall j | 0 <= j < |s.list| && j != i :: r.list[j] == s.list[j]
  {
    var i := IndexOfFirst(s.list, m.id);
    if i == -1 then s
    else
      var list := s.list[i := m];
      assert IsFirstWithId(s.list, m.id, i) && list[i] == m;
      Store(list, list)
  }

  /** `deleteMember`: remove every member with the identifier, keep the others
      in order, and publish whether or not anything was removed. */
  function DeleteMember(s: Store, id: string): (r: Store)
    ensures Published(r)
    ensures forall i | 0 <= i < |r.list| :: r.list[i].id != id && r.list[i] in s.list
    ensures forall i | 0 <= i < |s.list| && s.list[i].id != id :: s.list[i] in r.list
    ensures Seqs.IsSubsequence(r.list, s.list)
    ensures |r.list| == |s.list| - Seqs.Count(s.list, IdIs(id))
  {
    var list := Seqs.Filter(s.list, IdIsNot(id));
    Seqs.CountPartition(s.list, IdIs(id), IdIsNot(id));
    Store(list, list)
  }

  /** The search predicate: the query occurs, ignoring case, in the name,
      the email or the phone number. */
  predicate MatchesQuery(m: Member, query: string)
  {
    || ContainsIgnoreCase(m.name, query)
    || ContainsIgnoreCase(m.email, query)
    || ContainsIgnoreCase(m.phoneNumber, query)
  }

  function Matching(query: string): Member -> bool
  {
    (m: Member) => MatchesQuery(m, query)
  }

  /** `searchMembers`: the matching members in list order. */
  function SearchMembers(s: Store, query: string): (r: seq<Member>)
    ensures forall i | 0 <= i < |r| :: r[i] in s.list && MatchesQuery(r[i], query)
    ensures forall i | 0 <= i < |s.list| && MatchesQuery(s.list[i], query) :: s.list[i] in r
    ensures Seqs.IsSubsequence(r, s.list)
    ensures |r| == Seqs.Count(s.list, Matching(query))
  {
    Seqs.Filter(s.list, Matching(query))
  }

  // ---------------------------------------------------------------------
  // Properties relating several calls

  /** Deleting an absent identifier leaves the list as it was. */
  lemma DeleteAbsentKeepsList(s: Store, id: string)
    requires !HasId(s.list, id)
    ensures DeleteMember(s, id).list == s.list
    ensures Published(s) ==> DeleteMember(s, id) == s
  {
    Seqs.FilterKeepsAll(s.list, IdIsNot(id));
  }

  /** Deleting twice equals deleting once. */
  lemma DeleteIdempotent(s: Store, id: string)
    ensures DeleteMember(DeleteMember(s, id), id) == DeleteMember(s, id)
  {
    Seqs.FilterIdempotent(s.list, IdIsNot(id));
  }

  /** When identifiers are unique, deleting a present one removes exactly one member. */
  lemma DeleteUniqueRemovesOne(s: Store, id: string)
    requires UniqueIds(s.list) && HasId(s.list, id)
    ensures |DeleteMember(s, id).list| == |s.list| - 1
  {
    CountUniqueIsOne(s.list, id);
  }

  lemma {:induction false} CountUniqueIsOne(ms: seq<Member>, id: string)
    requires UniqueIds(ms) && HasId(ms, id)
    ensures Seqs.Count(ms, IdIs(id)) == 1
  {
    if ms[0].id == id {
      forall x | x in ms[1..]
        ensures !IdIs(id)(x)
      {
        var k :| 0 <= k < |ms[1..]| && ms[1..][k] == x;
        assert ms[k + 1] == x;
      }
      Seqs.CountNone(ms[1..], IdIs(id));
    } else {
      var j :| 0 <= j < |ms| && ms[j].id == id;
      assert ms[1..][j - 1].id == id;
      CountUniqueIsOne(ms[1..], id);
    }
  }

  /** The empty query matches every member, so searching for it returns the whole list. */
  lemma SearchEmptyReturnsAll(s: Store)
    ensures SearchMembers(s, "") == s.list
  {
    forall m | m in s.list
      ensures Matching("")(m)
    {
      EmptyQueryIsContained(m.name);
    }
    Seqs.FilterKeepsAll(s.list, Matching(""));
  }

  /** The case of the query does not affect the result. */
  lemma SearchIgnoresQueryCase(s: Store, query: string)
    ensures SearchMembers(s, query) == SearchMembers(s, LowerAll(query))
  {
    forall m | m in s.list
      ensures Matching(query)(m) == Matching(LowerAll(query))(m)
    {
      ContainsIgnoresCaseOfArguments(m.name, query);
      ContainsIgnoresCaseOfArguments(m.email, query);
      ContainsIgnoresCaseOfArguments(m.phoneNumber, query);
    }
    Seqs.FilterCongruent(s.list, Matching(query), Matching(LowerAll(query)));
  }

  /** The case of a member's name, email and phone number does not affect
      whether it matches a query. */
  lemma MatchIgnoresFieldCase(m: Member, query: string)
    ensures MatchesQuery(m, query) <==>
      MatchesQuery(m.(name := LowerAll(m.name), email := LowerAll(m.email),
                      phoneNumber := LowerAll(m.phoneNumber)), query)
  {
    ContainsIgnoresCaseOfArguments(m.name, query);
    ContainsIgnoresCaseOfArguments(m.email, query);
    ContainsIgnoresCaseOfArguments(m.phoneNumber, query);
  }

  /** Updating with a present identifier keeps every identifier in place, so
      unique identifiers stay unique. */
  lemma UpdatePreservesIds(s: Store, m: Member)
    ensures forall i | 0 <= i < |s.list| :: UpdateMember(s, m).list[i].id == s.list[i].id
    ensures UniqueIds(s.list) ==> UniqueIds(UpdateMember(s, m).list)
  {
  }

  /** Appending keeps identifiers unique exactly when the new one is fresh. */
  lemma AddPreservesUniqueIdsIffFresh(s: Store, m: Member)
    requires UniqueIds(s.list)
    ensures UniqueIds(AddMember(s, m).list) <==> !HasId(s.list, m.id)
  {
  }
}
