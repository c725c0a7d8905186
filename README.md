# Invite rules and client capability checks

This project models two small parts of a federated social-networking server's
role-delegating invite feature, and proves properties of them in Dafny.

- **Invites** (`invite.dfy`, module `Invites`). An invite is a record with an
  8-character secret code, an optional use limit, a use counter, an optional
  expiry, an optional comment, an inviter, and an optional role that the invited
  account will receive. The model covers these parts:
  - the code alphabet: ASCII letters and digits without the homoglyphs `0 1 I l O`;
  - code generation: draw 8 distinct alphabet characters, and redraw until no
    existing invite holds the code;
  - the validation run: the inviter must be present, the comment may have at most
    420 characters, and, when the role reference changed, the invite's role may not
    override the inviter's role;
  - redeemability: uses left, not expired, inviter present and functional;
  - the `available` listing scope: no expiry, or an expiry at or after now.

  The invite is a `class`, because the record's code and error list are updated in
  place. The rules themselves are functions, and lemmas are proved about them.
- **Capability checks** (`permissions.dfy`, module `Permissions`). The web client
  decides what to offer from the role's permission bitmask. Each check tests a
  single flag with `(mask & FLAG) === FLAG`. The feed check chooses by the
  instance's feed setting. Masks are `bv32`, because JavaScript's `&` works on
  32-bit integers and every flag lies below 2^31.

Notes on the code's behaviour:
- The `available` scope includes an expiry equal to now, because the endless
  range `now..` includes its start.
- Code generation has no retry cap.
- The client's `&` works on 32-bit masks.
- The `Invite` model never increments `uses`.

## Model

| member | source | states |
|---|---|---|
| `Invites.CharRange` | app/models/invite.rb:24 | the character range has `hi - lo + 1` entries (none if empty), and entry i is the character `lo + i` |
| `Invites.CharRangeContents` | app/models/invite.rb:24 | a character range contains exactly the characters between its ends, each once |
| `Invites.ConcatDistinct` | app/models/invite.rb:24 | joining two repetition-free lists with no common character gives a repetition-free list |
| `Invites.EligibleCodeCharactersContents` | app/models/invite.rb:24 | the eligible characters are exactly the ASCII letters and digits, none repeated |
| `Invites.Difference` | app/models/invite.rb:26 | array difference holds exactly the characters of the first list that are absent from the second, and never grows |
| `Invites.DifferenceConcat` | app/models/invite.rb:26 | array difference keeps the receiver's order: the difference of a concatenation is the concatenation of the differences |
| `Invites.DifferenceDistinct` | app/models/invite.rb:26 | array difference keeps a repetition-free list repetition-free |
| `Invites.DifferenceLength` | app/models/invite.rb:26 | on a repetition-free list, the difference is shorter by the number of removed characters that occur in it |
| `Invites.HomoglyphsAreEligible` | app/models/invite.rb:24-25 | each of `0 1 I l O` is among the eligible characters |
| `Invites.EligibleHomoglyphs` | app/models/invite.rb:24-26 | all five homoglyphs are eligible characters, so the difference removes exactly five |
| `Invites.ValidCodeCharactersContents` | app/models/invite.rb:24-26 | the code alphabet has exactly 57 characters, none repeated: the ASCII letters and digits other than `0 1 I l O` |
| `Invites.SampleYieldsCode` | app/models/invite.rb:48 | joining 8 distinct sampled positions gives 8 pairwise-distinct alphabet characters, with no homoglyph among them |
| `Invites.Invite.SetCode` | app/models/invite.rb:46-51 | exits only with a well-formed code that no existing invite holds; that code is the first unused draw, and every earlier draw collided; only the code field changes |
| `Invites.UserErrors` | app/models/invite.rb:28 | the required inviter yields exactly one `required` error when it is missing, and none otherwise |
| `Invites.CommentErrors` | app/models/invite.rb:34 | a comment yields exactly one "too long" error, with count 420, when it is present and longer than 420 characters, and none otherwise |
| `Invites.RoleAssignmentErrors` | app/models/invite.rb:53-57 | no error when the role or the inviter is missing; otherwise exactly one `elevated` error on the role reference when the role overrides the inviter's role, and none when it does not |
| `Invites.ValidationErrors` | app/models/invite.rb:28-38 | a validation run finds no error exactly when the inviter is present, the comment has at most 420 characters, and no changed role overrides the inviter's role |
| `Invites.ElevationFollowsPosition` | app/models/invite.rb:53-57 | when overriding follows position among ordinary roles, an invite is rejected as elevated exactly when its role is above the inviter's; equal, lower or no role is accepted |
| `Invites.RoleAssignmentTestOutcomes` | spec/models/invite_custom_spec.rb:16-43 | with roles at positions 5, 10 and 20 and an inviter at 10, the role at 20 gives exactly one `elevated` error; the roles at 10 and 5, and no role, give none |
| `Invites.Invite.ValidateRoleAssignment` | app/models/invite.rb:53-57 | appends exactly the role-assignment errors to the record's errors and changes nothing else |
| `Invites.Invite.Validate` | app/models/invite.rb:34-38 | clears the errors, draws a fresh unused code on create only, and collects exactly the validation errors; valid means no error |
| `Invites.Invite.constructor` | app/models/invite.rb:7-17 | a new invite has an empty code, zero uses and no errors; a given role counts as a changed role reference |
| `Invites.Invite.ValidForUse` | app/models/invite.rb:40-42 | false once a set use limit is reached, when expired, or when the inviter is missing or not functional; no use limit places no bound on uses |
| `Invites.Available` | app/models/invite.rb:32 | keeps exactly the invites whose expiry is missing or at or after `now`, each at most as often as in the input, and never adds any |
| `Permissions.FlagConstantsAreDistinctBits` | app/javascript/mastodon/permissions.ts:1-14 | every flag constant is a single power of two at its stated bit, below 2^31, and no two are equal |
| `Permissions.CanViewAdminDashboard` | app/javascript/mastodon/permissions.ts:21-25 | true exactly when bit 3 of the mask is set |
| `Permissions.CanManageReports` | app/javascript/mastodon/permissions.ts:27-31 | true exactly when bit 4 of the mask is set |
| `Permissions.CanViewFeed` | app/javascript/mastodon/permissions.ts:33-47 | public feeds are always visible; with authenticated access, visible exactly to signed-in users; when disabled or unset, visible exactly when bit 20 is set, whatever the sign-in state |
| `Permissions.CanPost` | app/javascript/mastodon/permissions.ts:49-53 | true exactly when bit 21 of the mask is set |
| `Permissions.CanReply` | app/javascript/mastodon/permissions.ts:54-59 | true exactly when bit 22 of the mask is set |
| `Permissions.CanReblog` | app/javascript/mastodon/permissions.ts:60-64 | true exactly when bit 23 of the mask is set |
| `Permissions.CanFavourite` | app/javascript/mastodon/permissions.ts:65-67 | true exactly when bit 24 of the mask is set |
| `Permissions.CanIffOverlap` | app/javascript/mastodon/permissions.ts:21-67 | each checked flag is a single bit, so the exact-match test agrees with "mask and flag overlap" |
| `Permissions.CanMonotone` | app/javascript/mastodon/permissions.ts:49-67 | adding bits to a mask never revokes a capability |
| `Permissions.CanIgnoresOtherBits` | app/javascript/mastodon/permissions.ts:49-67 | adding only bits other than a capability's own flag leaves that capability unchanged |
| `Permissions.PosterWithoutReply` | spec/requests/api/v1/statuses_custom_spec.rb:62-83 | the create-statuses flag alone allows posting but not replying, reblogging or favouriting; adding the reply flag allows replying |
| `Permissions.InteractionGrantsInteractions` | spec/serializers/rest/account_serializer_custom_spec.rb:18-32 | any mask holding reply, reblog and favourite together allows all three; that group alone does not allow posting |

## Left out

- Randomness: `sample(8)` is a parameter `rng`, where attempt k picks the positions `rng(k)`. Each draw is 8 distinct alphabet positions. Uniformity and collision probability are not modelled.
- Invites.Invite.SetCode: the source loop has no retry cap and never ends on a stream that keeps colliding. The model proves that `SetCode` terminates, so it requires that some attempt draws an unused code rather than invent a retry bound.
- The existence lookup by code is membership in a set `existing` of the codes already held. Persistence, the uniqueness race between lookup and insert, and saving are not modelled.
- Expiry: the expiry mixin is not part of this model. `ValidForUse` takes "expired" as a parameter, and the `available` scope is modelled on its own.
- Role overriding: the role model is not part of this model. `overrides` is a parameter. It is constrained only by `OverridesByPosition`: among ordinary roles, a role overrides another exactly when its position is higher. Nothing is assumed about the baseline "everyone" role.
- Dirty tracking: `userRoleChanged` is a field. Only the constructor sets it, to "a role was given". Reassigning a role on a saved invite is generic record plumbing and is not modelled.
- The `Invite` model never increments the use counter, so redemption and its atomicity are not modelled.
- `maxUses` is any integer. The `Invite` model puts no validation on it.
- The client's behaviour for masks at or above 2^32 is not modelled.
- The client-side compose-override toggle, the schema migration, the test-only role fabricator, and the request, controller, policy, serializer and service behaviour are not part of this model.
