/** The immutable member record (a Kotlin data class). */
module Members {
  import opened Wrappers
  import opened MembershipTypes

  /** The eleven fields of a member; datatype equality is structural over all
      of them, as data-class equality is. */
  datatype Member = Member(
    id: string,
    name: string,
    email: string,
    phoneNumber: string,
    membershipType: MembershipType,
    joinDate: string,
    expiryDate: string,
    isActive: bool,
    profileImageUrl: Option<string>,
    emergencyContact: string,
    address: string)

  /** The data-class constructor with its default arguments. */
  function NewMember(
    id: string, name: string, email: string, phoneNumber: string,
    membershipType: MembershipType, joinDate: string, expiryDate: string,
    isActive: bool := true, profileImageUrl: Option<string> := None,
    emergencyContact: string := "", address: string := ""): (m: Member)
    ensures m.id == id && m.name == name && m.email == email && m.phoneNumber == phoneNumber
    ensures m.membershipType == membershipType && m.joinDate == joinDate && m.expiryDate == expiryDate
    ensures m.isActive == isActive && m.profileImageUrl == profileImageUrl
    ensures m.emergencyContact == emergencyContact && m.address == address
  {
    Member(id, name, email, phoneNumber, membershipType, joinDate, expiryDate,
           isActive, profileImageUrl, emergencyContact, address)
  }

  /** A member built without the optional arguments is active, has no
      picture, and has empty emergency contact and address. */
  lemma NewMemberDefaults(
    id: string, name: string, email: string, phoneNumber: string,
    membershipType: MembershipType, joinDate: string, expiryDate: string)
    ensures var m := NewMember(id, name, email, phoneNumber, membershipType, joinDate, expiryDate);
      && m.isActive
      && m.profileImageUrl == None
      && m.emergencyContact == ""
      && m.address == ""
      && m.id == id && m.name == name && m.email == email && m.phoneNumber == phoneNumber
      && m.membershipType == membershipType && m.joinDate == joinDate && m.expiryDate == expiryDate
  {
  }

  /** `copy(isActive = active)`. */
  function WithActive(m: Member, active: bool): (r: Member)
    ensures r.isActive == active
    ensures r.(isActive := m.isActive) == m
    ensures r == m <==> m.isActive == active
  {
    m.(isActive := active)
  }

  /** Two members are equal exactly when all eleven fields are. */
  lemma EqualityIsStructural(a: Member, b: Member)
    ensures a == b <==>
      && a.id == b.id && a.name == b.name && a.email == b.email
      && a.phoneNumber == b.phoneNumber && a.membershipType == b.membershipType
      && a.joinDate == b.joinDate && a.expiryDate == b.expiryDate
      && a.isActive == b.isActive && a.profileImageUrl == b.profileImageUrl
      && a.emergencyContact == b.emergencyContact && a.address == b.address
  {
  }
}
