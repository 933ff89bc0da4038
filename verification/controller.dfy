/** The registry service on top of the store: validated registration, status
    toggling, deletion, pass-through queries and statistics. The clock-derived
    identifier of a new member is a parameter. */
module Controller {
  import opened Wrappers
  import opened Members
  import opened MembershipTypes
  import opened Text
  import Repository
  import Seqs

  /** Message of a registration with a blank required field. */
  const EmptyFieldMessage: string := "Data tidak boleh kosong"

  /** `registerMember`: reject a blank name, email or phone number; otherwise
      append an active member without picture under `newId` (the reading of
      the clock) and succeed. */
  function RegisterMember(
    s: Repository.Store, newId: string, name: string, email: string, phoneNumber: string,
    membershipType: MembershipType, joinDate: string, expiryDate: string,
    emergencyContact: string := "", address: string := ""): (out: (Result<bool>, Repository.Store))
    ensures out.0.Failure? <==> IsBlank(name) || IsBlank(email) || IsBlank(phoneNumber)
    ensures out.0.Failure? ==> out.0.message == EmptyFieldMessage && out.1 == s
    ensures out.0.Success? ==>
      && out.0.value
      && Repository.Published(out.1)
      && |out.1.list| == |s.list| + 1
      && out.1.list[..|s.list|] == s.list
      && var m := out.1.list[|s.list|];
      && m.id == newId && m.name == name && m.email == email && m.phoneNumber == phoneNumber
      && m.membershipType == membershipType && m.joinDate == joinDate && m.expiryDate == expiryDate
      && m.isActive && m.profileImageUrl == None
      && m.emergencyContact == emergencyContact && m.address == address
  {
    if IsBlank(name) || IsBlank(email) || IsBlank(phoneNumber) then
      (Failure(EmptyFieldMessage), s)
    else
      var member := NewMember(newId, name, email, phoneNumber, membershipType, joinDate, expiryDate,
                              emergencyContact := emergencyContact, address := address);
      (Success(true), Repository.AddMember(s, member))
  }

  /** `getAllMembers`, passed through to the store. */
  function GetAllMembers(s: Repository.Store): (r: seq<Member>)
    ensures r == Repository.GetAllMembers(s)
  {
    Repository.GetAllMembers(s)
  }

  /** `getMemberById`, passed through to the store. */
  function GetMemberById(s: Repository.Store, id: string): (r: Option<Member>)
    ensures r == Repository.GetMemberById(s, id)
  {
    Repository.GetMemberById(s, id)
  }

  /** `searchMembers`, passed through to the store. */
  function SearchMembers(s: Repository.Store, query: string): (r: seq<Member>)
    ensures r == Repository.SearchMembers(s, query)
  {
    Repository.SearchMembers(s, query)
  }

  /** `toggleMemberStatus`: flip the active flag of the first member with the
      identifier and report whether there was one. */
  function ToggleMemberStatus(s: Repository.Store, id: string): (out: (bool, Repository.Store))
    ensures out.0 <==> Repository.HasId(s.list, id)
    ensures !out.0 ==> out.1 == s
    ensures out.0 ==>
      && Repository.Published(out.1)
      && |out.1.list| == |s.list|
      && exists i :: Repository.IsFirstWithId(s.list, id, i) &&
           out.1.list[i] == WithActive(s.list[i], !s.list[i].isActive) &&
           forall j | 0 <= j < |s.list| && j != i :: out.1.list[j] == s.list[j]
  {
    match Repository.GetMemberById(s, id)
    case None => (false, s)
    case Some(m) =>
      var i :| Repository.IsFirstWithId(s.list, id, i) && s.list[i] == m;
      var r := Repository.UpdateMember(s, WithActive(m, !m.isActive));
      assert r.list == s.list[i := WithActive(m, !m.isActive)] by {
        var k :| Repository.IsFirstWithId(s.list, id, k) && r.list[k] == WithActive(m, !m.isActive) &&
                 forall j | 0 <= j < |s.list| && j != k :: r.list[j] == s.list[j];
        Repository.FirstWithIdUnique(s.list, id, i, k);
      }
      (true, r)
  }

  /** `deleteMember`: remove every member with the identifier and report
      success, whether or not one was present. */
  function DeleteMember(s: Repository.Store, id: string): (out: (bool, Repository.Store))
    ensures out.0
    ensures out.1 == Repository.DeleteMember(s, id)
  {
    (true, Repository.DeleteMember(s, id))
  }

  function Active(): Member -> bool
  {
    (m: Member) => m.isActive
  }

  function Inactive(): Member -> bool
  {
    (m: Member) => !m.isActive
  }

  function OfType(t: MembershipType): Member -> bool
  {
    (m: Member) => m.membershipType == t
  }

  /** `getStatistics`: counts recomputed from the current list. */
  function GetStatistics(s: Repository.Store): (r: map<string, int>)
    ensures r.Keys == {"total", "active", "inactive", "basic", "premium", "vip"}
    ensures r["total"] == |s.list|
    ensures r["active"] == Seqs.Count(s.list, Active())
    ensures r["basic"] == Seqs.Count(s.list, OfType(Basic))
    ensures r["premium"] == Seqs.Count(s.list, OfType(Premium))
    ensures r["active"] + r["inactive"] == r["total"]
    ensures r["basic"] + r["premium"] + r["vip"] == r["total"]
  {
    var ms := GetAllMembers(s);
    Seqs.CountPartition(ms, Active(), Inactive());
    Seqs.CountPartition3(ms, OfType(Basic), OfType(Premium), OfType(Vip));
    map[
      "total" := |ms|,
      "active" := Seqs.Count(ms, Active()),
      "inactive" := Seqs.Count(ms, Inactive()),
      "basic" := Seqs.Count(ms, OfType(Basic)),
      "premium" := Seqs.Count(ms, OfType(Premium)),
      "vip" := Seqs.Count(ms, OfType(Vip))
    ]
  }

  // ---------------------------------------------------------------------
  // Properties relating several calls

  /** Toggling the same identifier twice restores the list. */
  lemma ToggleTwiceRestores(s: Repository.Store, id: string)
    requires Repository.HasId(s.list, id)
    ensures ToggleMemberStatus(ToggleMemberStatus(s, id).1, id).1.list == s.list
    ensures Repository.Published(s) ==> ToggleMemberStatus(ToggleMemberStatus(s, id).1, id).1 == s
  {
  }

  /** Toggling a present member moves it between the active and the inactive
      count and leaves the total alone. */
  lemma ToggleMovesOneBetweenCounts(s: Repository.Store, id: string)
    requires Repository.HasId(s.list, id)
    ensures var before := GetStatistics(s);
      var after := GetStatistics(ToggleMemberStatus(s, id).1);
      && after["total"] == before["total"]
      && (after["active"] == before["active"] + 1 || after["active"] == before["active"] - 1)
      && (after["active"] - before["active"] == before["inactive"] - after["inactive"])
  {
    var s1 := ToggleMemberStatus(s, id).1;
    var i :| Repository.IsFirstWithId(s.list, id, i) &&
             s1.list[i] == WithActive(s.list[i], !s.list[i].isActive) &&
             forall j | 0 <= j < |s.list| && j != i :: s1.list[j] == s.list[j];
    assert s1.list == s.list[i := WithActive(s.list[i], !s.list[i].isActive)];
    Seqs.CountUpdate(s.list, Active(), i, WithActive(s.list[i], !s.list[i].isActive));
  }

  /** Registering under a fresh identifier makes the new member reachable by
      that identifier, with the supplied fields and active. */
  lemma RegisterThenLookup(
    s: Repository.Store, newId: string, name: string, email: string, phoneNumber: string,
    membershipType: MembershipType, joinDate: string, expiryDate: string,
    emergencyContact: string, address: string)
    requires !IsBlank(name) && !IsBlank(email) && !IsBlank(phoneNumber)
    requires !Repository.HasId(s.list, newId)
    ensures var s1 := RegisterMember(s, newId, name, email, phoneNumber, membershipType, joinDate, expiryDate,
                                     emergencyContact, address).1;
      GetMemberById(s1, newId) ==
        Some(NewMember(newId, name, email, phoneNumber, membershipType, joinDate, expiryDate,
                       emergencyContact := emergencyContact, address := address))
  {
  }

  /** No uniqueness check: a registration whose clock reading equals an
      existing identifier succeeds, breaks identifier uniqueness, and the new
      member is shadowed by the older one for every lookup by identifier. */
  lemma RegisterWithTakenIdShadowsNewMember(
    s: Repository.Store, newId: string, name: string, email: string, phoneNumber: string,
    membershipType: MembershipType, joinDate: string, expiryDate: string,
    emergencyContact: string, address: string)
    requires !IsBlank(name) && !IsBlank(email) && !IsBlank(phoneNumber)
    requires Repository.HasId(s.list, newId)
    ensures var out := RegisterMember(s, newId, name, email, phoneNumber, membershipType, joinDate, expiryDate,
                                      emergencyContact, address);
      && out.0 == Success(true)
      && !Repository.UniqueIds(out.1.list)
      && GetMemberById(out.1, newId) == GetMemberById(s, newId)
  {
    var s1 := RegisterMember(s, newId, name, email, phoneNumber, membershipType, joinDate, expiryDate,
                             emergencyContact, address).1;
    var j :| 0 <= j < |s.list| && s.list[j].id == newId;
    assert s1.list[j].id == s1.list[|s.list|].id;
    var i := Repository.IndexOfFirst(s.list, newId);
    assert Repository.IsFirstWithId(s1.list, newId, i);
    Repository.FirstWithIdUnique(s1.list, newId, i, Repository.IndexOfFirst(s1.list, newId));
  }

  /** A successful registration adds one to the total, to the active count
      and to the count of the chosen plan, and leaves the other plans' counts alone. */
  lemma RegisterCountsOneMore(
    s: Repository.Store, newId: string, name: string, email: string, phoneNumber: string,
    membershipType: MembershipType, joinDate: string, expiryDate: string,
    emergencyContact: string, address: string)
    requires !IsBlank(name) && !IsBlank(email) && !IsBlank(phoneNumber)
    ensures var s1 := RegisterMember(s, newId, name, email, phoneNumber, membershipType, joinDate, expiryDate,
                                     emergencyContact, address).1;
      var before := GetStatistics(s);
      var after := GetStatistics(s1);
      && after["total"] == before["total"] + 1
      && after["active"] == before["active"] + 1
      && after["inactive"] == before["inactive"]
      && forall t :: Seqs.Count(s1.list, OfType(t)) == Seqs.Count(s.list, OfType(t)) + (if t == membershipType then 1 else 0)
  {
    var m := NewMember(newId, name, email, phoneNumber, membershipType, joinDate, expiryDate,
                       emergencyContact := emergencyContact, address := address);
    var s1 := RegisterMember(s, newId, name, email, phoneNumber, membershipType, joinDate, expiryDate,
                             emergencyContact, address).1;
    assert s1.list == s.list + [m];
    Seqs.CountAppend(s.list, Active(), m);
    forall t
      ensures Seqs.Count(s1.list, OfType(t)) == Seqs.Count(s.list, OfType(t)) + (if t == membershipType then 1 else 0)
    {
      Seqs.CountAppend(s.list, OfType(t), m);
    }
  }

  /** Statistics of the freshly constructed store. */
  lemma InitialStatistics()
    ensures GetStatistics(Repository.Init()) ==
      map["total" := 3, "active" := 2, "inactive" := 1, "basic" := 1, "premium" := 1, "vip" := 1]
  {
  }

  /** Registering one Premium member in the freshly constructed store. */
  lemma RegisterPremiumScenario()
    ensures var out := RegisterMember(Repository.Init(), "1700000000000", "Ani", "ani@email.com", "0812",
                                      Premium, "01/03/2024", "01/04/2024");
      && out.0 == Success(true)
      && GetStatistics(out.1)["total"] == 4
      && GetStatistics(out.1)["premium"] == 2
  {
    assert !IsWhitespace("Ani"[0]) && !IsWhitespace("ani@email.com"[0]) && !IsWhitespace("0812"[0]);
    InitialStatistics();
    RegisterCountsOneMore(Repository.Init(), "1700000000000", "Ani", "ani@email.com", "0812",
                          Premium, "01/03/2024", "01/04/2024", "", "");
  }

  // ---------------------------------------------------------------------
  // The service as an object holding the store

  class MemberController {
    var store: Repository.Store

    /** The object always publishes what its list holds. */
    predicate Valid()
      reads this
    {
      Repository.Published(store)
    }

    constructor()
      ensures Valid() && store == Repository.Init()
    {
      store := Repository.Init();
    }

    /** The flow of snapshots exposed to the screens. */
    function Members(): (r: seq<Member>)
      reads this
      requires Valid()
      ensures r == store.list
    {
      store.snapshot
    }

    method Register(
      newId: string, name: string, email: string, phoneNumber: string,
      membershipType: MembershipType, joinDate: string, expiryDate: string,
      emergencyContact: string := "", address: string := "") returns (result: Result<bool>)
      requires Valid()
      modifies this
      ensures Valid()
      ensures (result, store) == RegisterMember(old(store), newId, name, email, phoneNumber,
                                                membershipType, joinDate, expiryDate,
                                                emergencyContact, address)
    {
      var out := RegisterMember(store, newId, name, email, phoneNumber,
                                membershipType, joinDate, expiryDate, emergencyContact, address);
      result, store := out.0, out.1;
    }

    method ToggleStatus(id: string) returns (found: bool)
      requires Valid()
      modifies this
      ensures Valid()
      ensures (found, store) == ToggleMemberStatus(old(store), id)
    {
      var out := ToggleMemberStatus(store, id);
      found, store := out.0, out.1;
    }

    method Delete(id: string) returns (ok: bool)
      requires Valid()
      modifies this
      ensures Valid()
      ensures (ok, store) == DeleteMember(old(store), id)
    {
      var out := DeleteMember(store, id);
      ok, store := out.0, out.1;
    }
  }
}
