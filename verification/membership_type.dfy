/** The closed catalog of membership plans with their static data. The
    display colour is a UI value and is not part of this model; prices are
    whole rupiah amounts. */
module MembershipTypes {

  datatype MembershipType = Basic | Premium | Vip

  /** The variants in declaration order (Kotlin's `entries`). */
  const Entries: seq<MembershipType> := [Basic, Premium, Vip]

  /** Position of a variant in declaration order. */
  function Ordinal(t: MembershipType): (n: nat)
    ensures n < |Entries| && Entries[n] == t
  {
    match t
    case Basic => 0
    case Premium => 1
    case Vip => 2
  }

  function DisplayName(t: MembershipType): string
  {
    match t
    case Basic => "Basic"
    case Premium => "Premium"
    case Vip => "VIP"
  }

  function Price(t: MembershipType): nat
  {
    match t
    case Basic => 250000
    case Premium => 450000
    case Vip => 800000
  }

  function Duration(t: MembershipType): string
  {
    "1 Bulan"
  }

  function Benefits(t: MembershipType): seq<string>
  {
    match t
    case Basic => ["Akses gym", "Locker", "1 sesi konsultasi"]
    case Premium => ["Akses gym", "Locker", "Personal trainer 2x", "Kelas grup"]
    case Vip => ["Akses 24/7", "Personal trainer unlimited", "Spa access", "Nutrisi konsultasi"]
  }

  /** Exactly three variants, each listed once, in declaration order. */
  lemma CatalogIsClosed()
    ensures |Entries| == 3
    ensures forall t :: t in Entries
    ensures forall i, j | 0 <= i < j < |Entries| :: Entries[i] != Entries[j]
  {
    forall t
      ensures t in Entries
    {
      assert Entries[Ordinal(t)] == t;
    }
  }

  /** A later variant costs strictly more. */
  lemma PricesIncreaseWithOrdinal(a: MembershipType, b: MembershipType)
    ensures Ordinal(a) < Ordinal(b) ==> Price(a) < Price(b)
    ensures Price(a) > 0
  {
  }

  /** The display name identifies the variant. */
  lemma DisplayNamesDistinct(a: MembershipType, b: MembershipType)
    ensures DisplayName(a) == DisplayName(b) <==> a == b
  {
  }

  /** Every plan runs for one month and lists three or four benefits. */
  lemma DurationAndBenefits(t: MembershipType)
    ensures Duration(t) == "1 Bulan"
    ensures |Benefits(t)| == (if t == Basic then 3 else 4)
  {
  }
}
