/** The user projection and the phone guard (src/services/userService.ts).
    Reads only; the user table is a value. */
module UserService {
  import opened Js
  import opened ErrorHandler
  import opened Schema

  const AdminRole := "admin"

  datatype RoleView = RoleView(name: string, permissions: seq<string>)

  /** `UserInfo`. */
  datatype UserInfo = UserInfo(
    id: string,
    name: string,
    avatar: string,
    roles: seq<RoleView>,
    createdAt: int,
    updatedAt: int,
    bio: string,
    phone: string)

  // ----- the phone mask: replace(/\d{4,8}/g, '*') -----

  /** The number of digits `s` starts with, counting at most `cap`. */
  function LeadingDigits(s: string, cap: nat): (n: nat)
    ensures n <= cap && n <= |s|
    ensures forall k :: 0 <= k < n ==> IsDigit(s[k])
    ensures n < cap && n < |s| ==> !IsDigit(s[n])
    decreases cap
  {
    if cap == 0 || s == [] || !IsDigit(s[0]) then 0
    else 1 + LeadingDigits(s[1..], cap - 1)
  }

  /** The global greedy replace: at each position the longest run of four
      to eight digits becomes one '*'; shorter runs are copied. */
  function Mask(s: string): (r: string)
    ensures |r| <= |s|
    decreases |s|
  {
    if s == [] then []
    else
      var n := LeadingDigits(s, 8);
      if n >= 4 then "*" + Mask(s[n..]) else [s[0]] + Mask(s[1..])
  }

  /** Four digits in a row starting at `i`. */
  predicate FourDigitsAt(s: string, i: int)
    requires 0 <= i && i + 3 < |s|
  {
    IsDigit(s[i]) && IsDigit(s[i + 1]) && IsDigit(s[i + 2]) && IsDigit(s[i + 3])
  }

  predicate NoFourDigits(s: string) {
    forall i :: 0 <= i && i + 3 < |s| ==> !FourDigitsAt(s, i)
  }

  /** The cap only matters once it is reached. */
  lemma {:induction false} LeadingDigitsCap(s: string, c1: nat, c2: nat)
    requires c1 <= c2
    ensures LeadingDigits(s, c1) == if LeadingDigits(s, c2) < c1 then LeadingDigits(s, c2) else c1
    decreases c1
  {
    if c1 > 0 && s != [] && IsDigit(s[0]) {
      LeadingDigitsCap(s[1..], c1 - 1, c2 - 1);
    }
  }

  /** Under the mask, a string with fewer than four leading digits keeps
      them, followed by a non-digit or the end. */
  lemma {:induction false} MaskShortRun(t: string)
    requires LeadingDigits(t, 8) < 4
    ensures var k := LeadingDigits(t, 8);
            && |Mask(t)| >= k
            && (forall j :: 0 <= j < k ==> Mask(t)[j] == t[j])
            && (|Mask(t)| > k ==> !IsDigit(Mask(t)[k]))
    decreases |t|
  {
    if t != [] && IsDigit(t[0]) {
      LeadingDigitsCap(t[1..], 7, 8);
      MaskShortRun(t[1..]);
      assert Mask(t) == [t[0]] + Mask(t[1..]);
    }
  }

  /** Putting one character in front keeps a string free of four digits in
      a row, unless it is a digit and the string starts with three. */
  lemma ConsNoFourDigits(c: char, rest: string)
    requires NoFourDigits(rest)
    requires IsDigit(c) && |rest| >= 3 ==> !(IsDigit(rest[0]) && IsDigit(rest[1]) && IsDigit(rest[2]))
    ensures NoFourDigits([c] + rest)
  {
    var r := [c] + rest;
    forall i | 0 <= i && i + 3 < |r| ensures !FourDigitsAt(r, i) {
      if i > 0 {
        assert r[i] == rest[i - 1] && r[i + 1] == rest[i] && r[i + 2] == rest[i + 1] && r[i + 3] == rest[i + 2];
        assert !FourDigitsAt(rest, i - 1);
      } else {
        assert r[1] == rest[0] && r[2] == rest[1] && r[3] == rest[2];
      }
    }
  }

  /** No run of four digits survives the mask. */
  lemma {:induction false} MaskLeavesNoFourDigits(s: string)
    ensures NoFourDigits(Mask(s))
    decreases |s|
  {
    if s != [] {
      var n := LeadingDigits(s, 8);
      if n >= 4 {
        MaskLeavesNoFourDigits(s[n..]);
        assert Mask(s) == ['*'] + Mask(s[n..]);
        ConsNoFourDigits('*', Mask(s[n..]));
      } else {
        MaskLeavesNoFourDigits(s[1..]);
        if IsDigit(s[0]) {
          LeadingDigitsCap(s[1..], 7, 8);
          MaskShortRun(s[1..]);
        }
        assert Mask(s) == [s[0]] + Mask(s[1..]);
        ConsNoFourDigits(s[0], Mask(s[1..]));
      }
    }
  }

  /** A string without four digits in a row is left as it is. */
  lemma {:induction false} MaskIdentity(s: string)
    requires NoFourDigits(s)
    ensures Mask(s) == s
    decreases |s|
  {
    if s != [] {
      if LeadingDigits(s, 8) >= 4 {
        assert FourDigitsAt(s, 0);
      }
      assert NoFourDigits(s[1..]) by {
        forall i | 0 <= i && i + 3 < |s[1..]| ensures !FourDigitsAt(s[1..], i) {
          assert !FourDigitsAt(s, i + 1);
        }
      }
      MaskIdentity(s[1..]);
      assert [s[0]] + s[1..] == s;
    }
  }

  /** Masking twice is masking once. */
  lemma MaskIdempotent(s: string)
    ensures Mask(Mask(s)) == Mask(s)
  {
    MaskLeavesNoFourDigits(s);
    MaskIdentity(Mask(s));
  }

  /** A string whose first characters are all digits starts with as many
      digits as the cap or its length allows. */
  lemma {:induction false} LeadingDigitsOfDigits(s: string, cap: nat)
    requires forall k :: 0 <= k < |s| && k < cap ==> IsDigit(s[k])
    ensures LeadingDigits(s, cap) == if |s| < cap then |s| else cap
    decreases cap
  {
    if cap > 0 && s != [] {
      LeadingDigitsOfDigits(s[1..], cap - 1);
    }
  }

  /** An eleven-digit mobile number keeps only its last three digits: the
      first eight become one '*' and the remaining three are too short to
      match, so the mask does not hide the middle four digits. */
  lemma ElevenDigitPhone(p: string)
    requires |p| == 11 && forall k :: 0 <= k < |p| ==> IsDigit(p[k])
    ensures Mask(p) == ['*'] + p[8..]
  {
    LeadingDigitsOfDigits(p, 8);
    MaskIdentity(p[8..]);
  }

  /** `user.phone?.replace(...) || ''`. */
  function MaskedPhone(phone: Option<string>): (m: string)
    ensures phone.None? ==> m == ""
    ensures phone.Some? ==> m == Mask(phone.value)
    ensures NoFourDigits(m)
  {
    if phone.Some? then
      MaskLeavesNoFourDigits(phone.value);
      OrElse(Some(Mask(phone.value)), "")
    else ""
  }

  // ----- projection and guard -----

  function RoleOf(role: Role): (v: RoleView)
    ensures v.name == role.name
    ensures |v.permissions| == |role.permissions|
    ensures forall k :: 0 <= k < |v.permissions| ==> v.permissions[k] == role.permissions[k].code
  {
    RoleView(role.name, seq(|role.permissions|, k requires 0 <= k < |role.permissions| => role.permissions[k].code))
  }

  /** `getUserInfo`: 404 for an unknown id; otherwise the fallbacks, the
      role and permission-code projection, and the masked phone. */
  function GetUserInfo(users: seq<User>, id: string): (r: Result<UserInfo>)
    ensures r.Err? <==> !HasUser(users, id)
    ensures r.Err? ==> r.error == AppError("用户不存在", Some(404), None)
    ensures r.Ok? ==>
              var u := FindUser(users, id).value;
              && r.value.id == id
              && r.value.name == (if Truthy(u.name) then u.name.value else u.username)
              && r.value.avatar == (if Truthy(u.avatar) then u.avatar.value else "")
              && r.value.bio == (if Truthy(u.bio) then u.bio.value else "")
              && r.value.phone == MaskedPhone(u.phone)
              && NoFourDigits(r.value.phone)
              && |r.value.roles| == |u.roles|
              && (forall k :: 0 <= k < |u.roles| ==> r.value.roles[k] == RoleOf(u.roles[k]))
              && r.value.createdAt == u.createdAt && r.value.updatedAt == u.updatedAt
  {
    match FindUser(users, id)
    case None => Err(StatusError("用户不存在", 404))
    case Some(u) =>
      var roles := seq(|u.roles|, k requires 0 <= k < |u.roles| => RoleOf(u.roles[k]));
      var phone := MaskedPhone(u.phone);
      Ok(UserInfo(u.id, OrElse(Or(u.name, Some(u.username)), ""), OrElse(u.avatar, ""), roles,
                  u.createdAt, u.updatedAt, OrElse(u.bio, ""), phone))
  }

  /** `getRealPhone`: a non-admin asking for someone else is refused before
      any lookup; otherwise the stored phone, or '' when there is none or
      no such user. */
  function GetRealPhone(users: seq<User>, requesterId: string, targetUserId: string, requesterRole: string)
    : (r: Result<string>)
    ensures r.Err? <==> requesterRole != "admin" && requesterId != targetUserId
    ensures r.Err? ==> r.error == AppError("无权查看他人手机号", Some(403), None)
    ensures r.Ok? && !HasUser(users, targetUserId) ==> r.value == ""
    ensures r.Ok? && HasUser(users, targetUserId) ==>
              r.value == OrElse(FindUser(users, targetUserId).value.phone, "")
  {
    if requesterRole != AdminRole && requesterId != targetUserId then
      Err(StatusError("无权查看他人手机号", 403))
    else
      var user := FindUser(users, targetUserId);
      Ok(if user.Some? then OrElse(user.value.phone, "") else "")
  }

  /** What a user may see of their own number is its mask: masking the real
      phone gives the phone of the profile. */
  lemma RealPhoneMasksToInfo(users: seq<User>, id: string, role: string)
    requires HasUser(users, id)
    ensures GetRealPhone(users, id, id, role).Ok? && GetUserInfo(users, id).Ok?
    ensures Mask(GetRealPhone(users, id, id, role).value) == GetUserInfo(users, id).value.phone
  {
  }
}
