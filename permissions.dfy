/** Client-side capability checks: each role carries a permission bitmask, and the web
    client decides what to show by testing single bits of it.

    JavaScript's `&` converts both operands to 32-bit integers, and every flag below is
    smaller than 2^31, so masks are modelled as `bv32`. */
module Permissions {

  // Flag constants, one bit each. The view-feeds flag is spelled PEMRISSION_VIEW_FEEDS
  // in the client; the value is what matters here.
  const PermissionViewFeeds: bv32 := 0x0010_0000
  const PermissionInviteUsers: bv32 := 0x0001_0000
  const PermissionManageUsers: bv32 := 0x0000_0400
  const PermissionManageTaxonomies: bv32 := 0x0000_0100
  const PermissionManageFederation: bv32 := 0x0000_0020
  const PermissionManageReports: bv32 := 0x0000_0010
  const PermissionViewDashboard: bv32 := 0x0000_0008

  // Posting and interaction flags, mirroring the server's role flags.
  const PermissionCreateStatuses: bv32 := 0x0020_0000
  const PermissionReplyToStatuses: bv32 := 0x0040_0000
  const PermissionReblogStatuses: bv32 := 0x0080_0000
  const PermissionFavStatuses: bv32 := 0x0100_0000

  /** Every flag the client declares, in declaration order, and the bit each one occupies. */
  const AllFlags: seq<bv32> := [
    PermissionViewFeeds, PermissionInviteUsers, PermissionManageUsers,
    PermissionManageTaxonomies, PermissionManageFederation, PermissionManageReports,
    PermissionViewDashboard, PermissionCreateStatuses, PermissionReplyToStatuses,
    PermissionReblogStatuses, PermissionFavStatuses]
  const FlagBits: seq<bv32> := [20, 16, 10, 8, 5, 4, 3, 21, 22, 23, 24]

  /** The server's interaction group: reply, reblog and favourite together. */
  const Interaction: bv32 := PermissionReplyToStatuses | PermissionReblogStatuses | PermissionFavStatuses

  /** Reference definition of "bit k of the mask is set", independent of any flag constant. */
  predicate BitSet(mask: bv32, k: bv32)
    requires k < 32
  {
    (mask >> k) & 1 == 1
  }

  /** A power of two: exactly one bit is set. */
  predicate IsSingleBit(b: bv32) {
    b != 0 && b & (b - 1) == 0
  }

  /** The flags are distinct single bits below 2^31 (so a 32-bit `&` never meets the sign
      bit), and each sits at the bit position listed in FlagBits. */
  lemma FlagConstantsAreDistinctBits()
    ensures |AllFlags| == |FlagBits|
    ensures forall i :: 0 <= i < |AllFlags| ==>
      IsSingleBit(AllFlags[i]) && AllFlags[i] < 0x8000_0000 && FlagBits[i] < 31 && AllFlags[i] == 1 << FlagBits[i]
    ensures forall i, j :: 0 <= i < j < |AllFlags| ==> AllFlags[i] != AllFlags[j]
  {
  }

  function CanViewAdminDashboard(permissions: bv32): (r: bool)
    ensures r <==> BitSet(permissions, 3)
  {
    permissions & PermissionViewDashboard == PermissionViewDashboard
  }

  function CanManageReports(permissions: bv32): (r: bool)
    ensures r <==> BitSet(permissions, 4)
  {
    permissions & PermissionManageReports == PermissionManageReports
  }

  /** The instance setting that governs who may see the public feeds; `Unset` is the
      client's `undefined`. */
  datatype FeedSetting = Public | Authenticated | Disabled | Unset

  function CanViewFeed(signedIn: bool, permissions: bv32, setting: FeedSetting): (r: bool)
    ensures setting == Public ==> r
    ensures setting == Authenticated ==> (r <==> signedIn)
    ensures setting == Disabled || setting == Unset ==> (r <==> BitSet(permissions, 20))
  {
    match setting
    case Public => true
    case Authenticated => signedIn
    case Disabled | Unset => permissions & PermissionViewFeeds == PermissionViewFeeds
  }

  function CanPost(permissions: bv32): (r: bool)
    ensures r <==> BitSet(permissions, 21)
  {
    permissions & PermissionCreateStatuses == PermissionCreateStatuses
  }

  function CanReply(permissions: bv32): (r: bool)
    ensures r <==> BitSet(permissions, 22)
  {
    permissions & PermissionReplyToStatuses == PermissionReplyToStatuses
  }

  function CanReblog(permissions: bv32): (r: bool)
    ensures r <==> BitSet(permissions, 23)
  {
    permissions & PermissionReblogStatuses == PermissionReblogStatuses
  }

  function CanFavourite(permissions: bv32): (r: bool)
    ensures r <==> BitSet(permissions, 24)
  {
    permissions & PermissionFavStatuses == PermissionFavStatuses
  }

  /** The six single-flag checks, named so that lemmas can speak of all of them at once. */
  datatype Capability = ViewAdminDashboard | ManageReports | Post | Reply | Reblog | Favourite

  /** The flag each capability checks. */
  function FlagOf(c: Capability): bv32 {
    match c
    case ViewAdminDashboard => PermissionViewDashboard
    case ManageReports => PermissionManageReports
    case Post => PermissionCreateStatuses
    case Reply => PermissionReplyToStatuses
    case Reblog => PermissionReblogStatuses
    case Favourite => PermissionFavStatuses
  }

  function Can(c: Capability, permissions: bv32): bool {
    match c
    case ViewAdminDashboard => CanViewAdminDashboard(permissions)
    case ManageReports => CanManageReports(permissions)
    case Post => CanPost(permissions)
    case Reply => CanReply(permissions)
    case Reblog => CanReblog(permissions)
    case Favourite => CanFavourite(permissions)
  }

  /** The exact-match test on a single bit is the same as "the two overlap". */
  lemma CanIffOverlap(c: Capability, permissions: bv32)
    ensures IsSingleBit(FlagOf(c))
    ensures Can(c, permissions) <==> permissions & FlagOf(c) != 0
  {
  }

  /** Proof helper: each capability is the exact-match test on its own flag. */
  lemma CanIsExactMatch(c: Capability, permissions: bv32)
    ensures Can(c, permissions) <==> permissions & FlagOf(c) == FlagOf(c)
  {
  }

  /** Adding bits never revokes a capability. */
  lemma CanMonotone(c: Capability, permissions: bv32, extra: bv32)
    ensures Can(c, permissions) ==> Can(c, permissions | extra)
  {
    var flag := FlagOf(c);
    CanIsExactMatch(c, permissions);
    CanIsExactMatch(c, permissions | extra);
    KeepsFlag(permissions, extra, flag);
  }

  /** OR-ing bits into a mask that holds `flag` leaves `flag` held. */
  lemma KeepsFlag(permissions: bv32, extra: bv32, flag: bv32)
    ensures permissions & flag == flag ==> (permissions | extra) & flag == flag
  {
  }

  /** Adding only bits other than a capability's own flag leaves that capability unchanged. */
  lemma CanIgnoresOtherBits(c: Capability, permissions: bv32, extra: bv32)
    requires extra & FlagOf(c) == 0
    ensures Can(c, permissions | extra) == Can(c, permissions)
  {
    var flag := FlagOf(c);
    CanIsExactMatch(c, permissions);
    CanIsExactMatch(c, permissions | extra);
    SameFlagBits(permissions, extra, flag);
  }

  /** OR-ing in bits disjoint from `flag` does not change the mask's bits under `flag`. */
  lemma SameFlagBits(permissions: bv32, extra: bv32, flag: bv32)
    requires extra & flag == 0
    ensures (permissions | extra) & flag == permissions & flag
  {
  }

  /** A role holding only the create-statuses flag may post but not reply, reblog or
      favourite; adding the reply flag lets it reply as well. */
  lemma PosterWithoutReply()
    ensures CanPost(PermissionCreateStatuses)
    ensures !CanReply(PermissionCreateStatuses)
    ensures !CanReblog(PermissionCreateStatuses)
    ensures !CanFavourite(PermissionCreateStatuses)
    ensures CanPost(PermissionCreateStatuses | PermissionReplyToStatuses)
    ensures CanReply(PermissionCreateStatuses | PermissionReplyToStatuses)
  {
  }

  /** Any mask containing the interaction group may reply, reblog and favourite; the group
      alone does not allow posting. */
  lemma InteractionGrantsInteractions(permissions: bv32)
    requires permissions & Interaction == Interaction
    ensures CanReply(permissions) && CanReblog(permissions) && CanFavourite(permissions)
    ensures !CanPost(Interaction)
  {
  }
}
