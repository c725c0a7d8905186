/** An invite: a short secret code an existing user hands out, optionally limited in uses
    and lifetime, optionally carrying the role the invited account will get. */
module Invites {

  datatype Option<T> = None | Some(value: T)

  // ---------------------------------------------------------------------------
  // Constants and the code alphabet
  // ---------------------------------------------------------------------------

  const CommentSizeLimit: nat := 420
  const CodeLength: nat := 8

  /** The characters from `lo` to `hi` inclusive, as Ruby's `('a'..'z')` lists them. */
  function CharRange(lo: char, hi: char): (r: string)
    requires hi as int < 0x80
    ensures |r| == if lo <= hi then hi as int - lo as int + 1 else 0
    ensures forall i :: 0 <= i < |r| ==> r[i] as int == lo as int + i
    decreases hi as int - lo as int
  {
    if lo > hi then [] else [lo] + CharRange((lo as int + 1) as char, hi)
  }

  /** Ruby's `Array#-`: the elements of `s` that do not occur in `drop`, in order. */
  function Difference(s: string, drop: string): (r: string)
    ensures |r| <= |s|
    ensures forall c :: c in r <==> c in s && c !in drop
  {
    if s == [] then []
    else (if s[0] in drop then [] else [s[0]]) + Difference(s[1..], drop)
  }

  /** Array difference works element by element and keeps the receiver's order: the
      difference of a concatenation is the concatenation of the differences. */
  lemma {:induction false} DifferenceConcat(a: string, b: string, drop: string)
    ensures Difference(a + b, drop) == Difference(a, drop) + Difference(b, drop)
  {
    if a == [] {
      assert a + b == b;
    } else {
      var x, t := a[0], a[1..];
      var head: string := if x in drop then [] else [x];
      assert a == [x] + t;
      calc {
        Difference(a + b, drop);
      == { assert a + b == [x] + (t + b); DifferenceCons(x, t + b, drop); }
        head + Difference(t + b, drop);
      == { DifferenceConcat(t, b, drop); }
        head + (Difference(t, drop) + Difference(b, drop));
      ==
        (head + Difference(t, drop)) + Difference(b, drop);
      == { DifferenceCons(x, t, drop); }
        Difference(a, drop) + Difference(b, drop);
      }
    }
  }

  /** Proof helper for DifferenceConcat: the difference unfolded at its first character. */
  lemma DifferenceCons(x: char, t: string, drop: string)
    ensures Difference([x] + t, drop) == (if x in drop then [] else [x]) + Difference(t, drop)
  {
    assert ([x] + t)[0] == x && ([x] + t)[1..] == t;
  }

  const EligibleCodeCharacters: string := CharRange('a', 'z') + CharRange('A', 'Z') + CharRange('0', '9')
  const Homoglyphs: string := ['0', '1', 'I', 'l', 'O']
  const ValidCodeCharacters: string := Difference(EligibleCodeCharacters, Homoglyphs)

  predicate IsAsciiAlphanumeric(c: char) {
    'a' <= c <= 'z' || 'A' <= c <= 'Z' || '0' <= c <= '9'
  }

  /** No element occurs twice. */
  predicate Distinct<T(==)>(s: seq<T>) {
    forall i, j :: 0 <= i < j < |s| ==> s[i] != s[j]
  }

  lemma CharRangeContents(lo: char, hi: char)
    requires hi as int < 0x80
    ensures Distinct(CharRange(lo, hi))
    ensures forall c :: c in CharRange(lo, hi) <==> lo <= c <= hi
  {
    var r := CharRange(lo, hi);
    forall c | lo <= c <= hi ensures c in r {
      assert r[c as int - lo as int] == c;
    }
  }

  lemma {:induction false} DifferenceDistinct(s: string, drop: string)
    requires Distinct(s)
    ensures Distinct(Difference(s, drop))
  {
    if s != [] {
      var t := s[1..];
      assert Distinct(t);
      DifferenceDistinct(t, drop);
      assert s[0] !in t;
      assert s[0] !in Difference(t, drop);
    }
  }

  /** Removing from a sequence without repetitions drops exactly one entry per removed
      character that occurs in it. */
  lemma {:induction false} DifferenceLength(s: string, drop: string)
    requires Distinct(s)
    ensures |Difference(s, drop)| + |set c | c in s && c in drop| == |s|
  {
    if s == [] {
      assert (set c | c in s && c in drop) == {};
    } else {
      var t := s[1..];
      assert Distinct(t);
      DifferenceLength(t, drop);
      assert s[0] !in t;
      var here := set c | c in s && c in drop;
      var rest := set c | c in t && c in drop;
      if s[0] in drop {
        assert here == rest + {s[0]};
        assert s[0] !in rest;
      } else {
        assert here == rest;
      }
    }
  }

  lemma {:induction false} ConcatDistinct(a: string, b: string)
    requires Distinct(a) && Distinct(b)
    requires forall c :: c in a ==> c !in b
    ensures Distinct(a + b)
  {
    var ab := a + b;
    forall i, j | 0 <= i < j < |ab| ensures ab[i] != ab[j] {
      if i < |a| && j >= |a| {
        assert ab[i] in a && ab[j] == b[j - |a|];
      }
    }
  }

  /** The eligible characters are the ASCII letters and digits, none repeated. */
  lemma EligibleCodeCharactersContents()
    ensures Distinct(EligibleCodeCharacters)
    ensures forall c :: c in EligibleCodeCharacters <==> IsAsciiAlphanumeric(c)
  {
    var lower, upper, digits := CharRange('a', 'z'), CharRange('A', 'Z'), CharRange('0', '9');
    CharRangeContents('a', 'z');
    CharRangeContents('A', 'Z');
    CharRangeContents('0', '9');
    ConcatDistinct(lower, upper);
    ConcatDistinct(lower + upper, digits);
  }

  /** Each homoglyph is an eligible character. */
  lemma HomoglyphsAreEligible()
    ensures '0' in EligibleCodeCharacters && '1' in EligibleCodeCharacters
    ensures 'I' in EligibleCodeCharacters && 'l' in EligibleCodeCharacters && 'O' in EligibleCodeCharacters
  {
    var lower, upper, digits := CharRange('a', 'z'), CharRange('A', 'Z'), CharRange('0', '9');
    assert EligibleCodeCharacters == lower + upper + digits;
    assert digits[0] == '0' && digits[1] == '1';
    assert upper[8] == 'I' && upper[14] == 'O';
    assert lower[11] == 'l';
  }

  /** All five homoglyphs are eligible characters, so the difference removes five. */
  lemma EligibleHomoglyphs()
    ensures |set c | c in EligibleCodeCharacters && c in Homoglyphs| == 5
  {
    HomoglyphsAreEligible();
    var dropped := set c | c in EligibleCodeCharacters && c in Homoglyphs;
    var glyphs: set<char> := {'0', '1', 'I', 'l', 'O'};
    assert dropped == glyphs;
    assert |glyphs| == 5;
  }

  /** The code alphabet has 57 characters, none repeated: exactly the ASCII letters and
      digits other than the homoglyphs 0, 1, I, l and O. */
  lemma ValidCodeCharactersContents()
    ensures |ValidCodeCharacters| == 57
    ensures Distinct(ValidCodeCharacters)
    ensures forall c :: c in ValidCodeCharacters <==> IsAsciiAlphanumeric(c) && c !in Homoglyphs
  {
    EligibleCodeCharactersContents();
    DifferenceDistinct(EligibleCodeCharacters, Homoglyphs);
    DifferenceLength(EligibleCodeCharacters, Homoglyphs);
    EligibleHomoglyphs();
  }

  // ---------------------------------------------------------------------------
  // Code generation
  // ---------------------------------------------------------------------------

  /** What `sample(8)` can pick: eight distinct positions of the alphabet (it samples
      without replacement). */
  predicate IsSample(picks: seq<nat>) {
    |picks| == CodeLength && Distinct(picks) &&
    forall i :: 0 <= i < |picks| ==> picks[i] < |ValidCodeCharacters|
  }

  /** The string `join` builds from the picked characters. */
  function Join(picks: seq<nat>): (code: string)
    requires forall i :: 0 <= i < |picks| ==> picks[i] < |ValidCodeCharacters|
  {
    seq(|picks|, i requires 0 <= i < |picks| => ValidCodeCharacters[picks[i]])
  }

  /** A well-formed invite code: eight pairwise-distinct characters of the alphabet. */
  predicate IsCode(code: string) {
    |code| == CodeLength && Distinct(code) &&
    forall i :: 0 <= i < |code| ==> code[i] in ValidCodeCharacters
  }

  /** Every sample yields a well-formed code, with no homoglyph in it. */
  lemma SampleYieldsCode(picks: seq<nat>)
    requires IsSample(picks)
    ensures IsCode(Join(picks))
    ensures forall i :: 0 <= i < CodeLength ==> Join(picks)[i] !in Homoglyphs
  {
    ValidCodeCharactersContents();
    var code := Join(picks);
    forall i, j | 0 <= i < j < |code| ensures code[i] != code[j] {
      assert picks[i] != picks[j];
    }
  }

  /** The random source of `set_code`: attempt k samples the positions `rng(k)`. */
  ghost predicate SamplesAlphabet(rng: nat -> seq<nat>) {
    forall k: nat :: IsSample(rng(k))
  }

  /** Some attempt draws a code that no existing invite holds. */
  ghost predicate EventuallyUnused(rng: nat -> seq<nat>, existing: set<string>) {
    exists k: nat :: IsSample(rng(k)) && Join(rng(k)) !in existing
  }

  // ---------------------------------------------------------------------------
  // Roles, users and validation errors
  // ---------------------------------------------------------------------------

  /** A user role; `everyone` marks the baseline role users without a role fall back to. */
  datatype Role = Role(id: nat, position: int, everyone: bool)

  /** The inviter, as far as invites see it: the role it acts with and whether the
      account is still functional (confirmed, approved, not suspended). */
  datatype User = User(role: Role, functional: bool)

  /** The "overrides" relation between roles is defined outside the invite model; all that is
      fixed about it here is that among ordinary roles a role overrides another exactly when
      its position is higher. */
  ghost predicate OverridesByPosition(overrides: (Role, Role) -> bool) {
    forall a: Role, b: Role :: !a.everyone && !b.everyone ==> (overrides(a, b) <==> a.position > b.position)
  }

  datatype Attribute = UserAttribute | CommentAttribute | UserRoleIdAttribute
  datatype ErrorKind = Required | TooLong(count: nat) | Elevated
  datatype ValidationError = ValidationError(attribute: Attribute, kind: ErrorKind)

  /** The presence check that `belongs_to :user` declares. */
  function UserErrors(user: Option<User>): (r: seq<ValidationError>)
    ensures r == [] <==> user.Some?
    ensures r == [] || r == [ValidationError(UserAttribute, Required)]
  {
    if user.None? then [ValidationError(UserAttribute, Required)] else []
  }

  /** The comment length check: at most 420 characters; a missing comment passes. */
  function CommentErrors(comment: Option<string>): (r: seq<ValidationError>)
    ensures r == [] <==> comment.None? || |comment.value| <= CommentSizeLimit
    ensures r == [] || r == [ValidationError(CommentAttribute, TooLong(CommentSizeLimit))]
  {
    if comment.Some? && |comment.value| > CommentSizeLimit then
      [ValidationError(CommentAttribute, TooLong(CommentSizeLimit))]
    else
      []
  }

  /** The anti-elevation check: an invite may not carry a role that overrides its inviter's. */
  function RoleAssignmentErrors(userRole: Option<Role>, user: Option<User>, overrides: (Role, Role) -> bool): (r: seq<ValidationError>)
    ensures r != [] <==> userRole.Some? && user.Some? && overrides(userRole.value, user.value.role)
    ensures r == [] || r == [ValidationError(UserRoleIdAttribute, Elevated)]
  {
    if userRole.None? || user.None? then []
    else if overrides(userRole.value, user.value.role) then [ValidationError(UserRoleIdAttribute, Elevated)]
    else []
  }

  /** All errors a validation run collects, in the order the checks are declared; the role
      check runs only when the role reference changed. */
  function ValidationErrors(user: Option<User>, comment: Option<string>, userRole: Option<Role>,
                            userRoleChanged: bool, overrides: (Role, Role) -> bool): (r: seq<ValidationError>)
    ensures r == [] <==>
      user.Some? &&
      (comment.None? || |comment.value| <= CommentSizeLimit) &&
      !(userRoleChanged && userRole.Some? && overrides(userRole.value, user.value.role))
  {
    UserErrors(user) + CommentErrors(comment) +
    (if userRoleChanged then RoleAssignmentErrors(userRole, user, overrides) else [])
  }

  /** Under a position-respecting "overrides", an inviter with an ordinary role may hand out
      any ordinary role up to its own position and no higher, and may always hand out none. */
  lemma ElevationFollowsPosition(inviter: User, userRole: Option<Role>, overrides: (Role, Role) -> bool)
    requires OverridesByPosition(overrides)
    requires !inviter.role.everyone
    requires userRole.Some? ==> !userRole.value.everyone
    ensures ValidationError(UserRoleIdAttribute, Elevated) in ValidationErrors(Some(inviter), None, userRole, true, overrides)
      <==> userRole.Some? && userRole.value.position > inviter.role.position
    ensures ValidationErrors(Some(inviter), None, userRole, true, overrides) == []
      <==> userRole.None? || userRole.value.position <= inviter.role.position
  {
  }

  /** The outcomes the invite model's specs fix: with roles at positions 5, 10 and 20 and an inviter
      holding the middle one, the higher role is rejected with an elevation error and the
      equal role, the lower role and no role are accepted. */
  lemma RoleAssignmentTestOutcomes(overrides: (Role, Role) -> bool)
    requires OverridesByPosition(overrides)
    ensures var low, mid, high := Role(1, 5, false), Role(2, 10, false), Role(3, 20, false);
      var inviter := User(mid, true);
      ValidationErrors(Some(inviter), None, Some(high), true, overrides) == [ValidationError(UserRoleIdAttribute, Elevated)] &&
      ValidationErrors(Some(inviter), None, Some(mid), true, overrides) == [] &&
      ValidationErrors(Some(inviter), None, Some(low), true, overrides) == [] &&
      ValidationErrors(Some(inviter), None, None, false, overrides) == []
  {
  }

  // ---------------------------------------------------------------------------
  // The invite record
  // ---------------------------------------------------------------------------

  /** The validation context Rails runs a validation in. */
  datatype Context = OnCreate | OnUpdate

  class Invite {
    var code: string
    var comment: Option<string>
    var expiresAt: Option<int>
    var maxUses: Option<int>
    var uses: nat
    var user: Option<User>
    var userRole: Option<Role>
    /** Whether the role reference differs from the one last saved. */
    var userRoleChanged: bool
    var errors: seq<ValidationError>

    /** A new, unsaved invite: empty code, no uses, no errors; a role given here is a
        change against the (empty) saved state. */
    constructor (user: Option<User>, userRole: Option<Role>, maxUses: Option<int>,
                 expiresAt: Option<int>, comment: Option<string>)
      ensures this.user == user && this.userRole == userRole
      ensures this.maxUses == maxUses && this.expiresAt == expiresAt && this.comment == comment
      ensures code == "" && uses == 0 && errors == []
      ensures userRoleChanged == userRole.Some?
    {
      this.user := user;
      this.userRole := userRole;
      this.maxUses := maxUses;
      this.expiresAt := expiresAt;
      this.comment := comment;
      code := "";
      uses := 0;
      errors := [];
      userRoleChanged := userRole.Some?;
    }

    /** Whether the invite can still be redeemed; `expired` is the answer of the expiry
        mixin, which is not part of this model. */
    function ValidForUse(expired: bool): (r: bool)
      reads this
      ensures maxUses.Some? && uses >= maxUses.value ==> !r
      ensures expired ==> !r
      ensures user.None? || !user.value.functional ==> !r
      ensures maxUses.None? && !expired && user.Some? && user.value.functional ==> r
      ensures maxUses.Some? && uses < maxUses.value && !expired && user.Some? && user.value.functional ==> r
    {
      (maxUses.None? || uses < maxUses.value) && !expired && (user.Some? && user.value.functional)
    }

    /** Membership in the `available` scope at time `now`: no expiry, or an expiry at or
        after `now` (the scope's endless range includes its start). */
    predicate InAvailableScope(now: int)
      reads this
    {
      expiresAt.None? || expiresAt.value >= now
    }

    /** Draws codes until one is not held by any existing invite, and keeps it. */
    method SetCode(rng: nat -> seq<nat>, existing: set<string>)
      requires SamplesAlphabet(rng)
      requires EventuallyUnused(rng, existing)
      modifies this`code
      ensures IsCode(code) && code !in existing
      ensures exists k: nat :: code == Join(rng(k)) && forall j :: 0 <= j < k ==> Join(rng(j)) in existing
    {
      ghost var w: nat :| IsSample(rng(w)) && Join(rng(w)) !in existing;
      var k := 0;
      code := Join(rng(k));
      while code in existing
        invariant k <= w
        invariant code == Join(rng(k))
        invariant forall j :: 0 <= j < k ==> Join(rng(j)) in existing
        decreases w - k
      {
        k := k + 1;
        code := Join(rng(k));
      }
      SampleYieldsCode(rng(k));
    }

    /** Adds an elevation error when the assigned role overrides the inviter's role. */
    method ValidateRoleAssignment(overrides: (Role, Role) -> bool)
      modifies this`errors
      ensures errors == old(errors) + RoleAssignmentErrors(userRole, user, overrides)
    {
      if userRole.None? || user.None? {
        return;
      }
      if overrides(userRole.value, user.value.role) {
        errors := errors + [ValidationError(UserRoleIdAttribute, Elevated)];
      }
    }

    /** Runs a validation: clears the errors, draws a code when creating, then runs the
        declared checks in order. The invite is valid when no error was collected. */
    method Validate(context: Context, rng: nat -> seq<nat>, existing: set<string>,
                    overrides: (Role, Role) -> bool) returns (valid: bool)
      requires context == OnCreate ==> SamplesAlphabet(rng) && EventuallyUnused(rng, existing)
      modifies this`code, this`errors
      ensures errors == ValidationErrors(user, comment, userRole, userRoleChanged, overrides)
      ensures valid <==> errors == []
      ensures context == OnCreate ==> IsCode(code) && code !in existing
      ensures context == OnUpdate ==> code == old(code)
    {
      errors := [];
      if context == OnCreate {
        SetCode(rng, existing);
      }
      errors := errors + UserErrors(user);
      errors := errors + CommentErrors(comment);
      if userRoleChanged {
        ValidateRoleAssignment(overrides);
      }
      valid := errors == [];
    }
  }

  /** The `available` scope over a list of invites: exactly those with no expiry or an
      expiry at or after `now`. */
  function Available(invites: seq<Invite>, now: int): (r: seq<Invite>)
    reads invites
    ensures multiset(r) <= multiset(invites)
    ensures |r| <= |invites|
    ensures forall k :: 0 <= k < |r| ==> r[k] in invites && (r[k].expiresAt.None? || r[k].expiresAt.value >= now)
    ensures forall k :: 0 <= k < |invites| && (invites[k].expiresAt.None? || invites[k].expiresAt.value >= now) ==> invites[k] in r
  {
    assert invites != [] ==> invites == [invites[0]] + invites[1..];
    if invites == [] then []
    else (if invites[0].InAvailableScope(now) then [invites[0]] else []) + Available(invites[1..], now)
  }
}
