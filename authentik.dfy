/** The profile construction of the Authentik strategy
    (src/auth/strategies/authentik.strategy.ts): from the provider's userinfo
    claims to the profile handed to `validateOAuthUser`. The userinfo fetch
    itself is not modelled; its decoded claims are the input. */
module Authentik {
  import opened Wrappers
  import opened UserModel
  import opened Users
  import opened Auth

  /** The userinfo claims the strategy reads. */
  datatype UserInfo = UserInfo(sub: string, email: Option<string>, givenName: Option<string>, groups: Option<seq<string>>)

  /** `String.prototype.split(' ')`: the pieces between single spaces, empty
      pieces included; the empty string gives one empty piece. */
  function Split(s: string): (parts: seq<string>)
    ensures |parts| >= 1
    ensures forall i :: 0 <= i < |parts| ==> ' ' !in parts[i]
  {
    if s == [] then [""]
    else
      var rest := Split(s[1..]);
      if s[0] == ' ' then [""] + rest
      else [[s[0]] + rest[0]] + rest[1..]
  }

  /** `Array.prototype.join(' ')`: no pieces give the empty string, a single
      piece joins to itself, and the first piece is followed by a space exactly
      when more pieces follow. */
  function Join(parts: seq<string>): (s: string)
    ensures parts == [] ==> s == ""
    ensures |parts| >= 1 ==> parts[0] <= s
    ensures |parts| == 1 ==> s == parts[0]
    ensures |parts| > 1 ==> |parts[0]| < |s| && s[|parts[0]|] == ' '
  {
    if |parts| == 0 then ""
    else if |parts| == 1 then parts[0]
    else parts[0] + " " + Join(parts[1..])
  }

  /** The index of the first space, or the length when there is none. */
  function FirstSpace(s: string): (i: nat)
    ensures i <= |s| && ' ' !in s[..i]
    ensures i < |s| ==> s[i] == ' '
  {
    if s == [] || s[0] == ' ' then 0
    else
      var i := 1 + FirstSpace(s[1..]);
      assert s[..i] == [s[0]] + s[1..][..i - 1];
      i
  }

  /** Joining the pieces of a split gives back the string. */
  lemma {:induction false} JoinSplit(s: string)
    ensures Join(Split(s)) == s
  {
    if s != [] {
      var rest := Split(s[1..]);
      JoinSplit(s[1..]);
      assert s == [s[0]] + s[1..];
      if s[0] == ' ' {
        assert ([""] + rest)[1..] == rest;
      } else if |rest| > 1 {
        assert Split(s)[1..] == rest[1..];
      }
    }
  }

  /** Splitting a join of space-free pieces gives back the pieces. */
  lemma {:induction false} SplitJoin(parts: seq<string>)
    requires |parts| >= 1
    requires forall i :: 0 <= i < |parts| ==> ' ' !in parts[i]
    ensures Split(Join(parts)) == parts
  {
    SplitSpaceFree(parts[0], "");
    assert parts[0] + "" == parts[0];
    if |parts| > 1 {
      SplitJoin(parts[1..]);
      SplitSpaceFree(parts[0], " " + Join(parts[1..]));
      assert (" " + Join(parts[1..]))[1..] == Join(parts[1..]);
      assert parts[0] + " " + Join(parts[1..]) == parts[0] + (" " + Join(parts[1..]));
      assert parts == [parts[0]] + parts[1..];
    }
  }

  /** A space-free prefix is glued to the first piece of what follows it. */
  lemma {:induction false} SplitSpaceFree(a: string, b: string)
    requires ' ' !in a
    ensures Split(a + b) == [a + Split(b)[0]] + Split(b)[1..]
  {
    if a == [] {
      assert a + b == b && a + Split(b)[0] == Split(b)[0];
      assert Split(b) == [Split(b)[0]] + Split(b)[1..];
    } else {
      SplitSpaceFree(a[1..], b);
      assert (a + b)[1..] == a[1..] + b;
      assert [a[0]] + (a[1..] + Split(b)[0]) == a + Split(b)[0];
    }
  }

  /** The first piece is the text before the first space, there is only one
      piece exactly when there is no space, and the rest of the pieces re-join
      to the text after the first space. */
  lemma {:induction false} SplitAtFirstSpace(s: string)
    ensures Split(s)[0] == s[..FirstSpace(s)]
    ensures |Split(s)| == 1 <==> FirstSpace(s) == |s|
    ensures FirstSpace(s) < |s| ==> Join(Split(s)[1..]) == s[FirstSpace(s) + 1..]
  {
    if s != [] {
      var rest := Split(s[1..]);
      if s[0] == ' ' {
        JoinSplit(s[1..]);
        assert ([""] + rest)[1..] == rest;
      } else {
        SplitAtFirstSpace(s[1..]);
        assert s[..FirstSpace(s)] == [s[0]] + s[1..][..FirstSpace(s[1..])];
        assert Split(s)[1..] == rest[1..];
        if FirstSpace(s) < |s| {
          assert s[FirstSpace(s) + 1..] == s[1..][FirstSpace(s[1..]) + 1..];
        }
      }
    }
  }

  /** The words of `given_name`: none when it is missing or empty; otherwise
      space-free pieces that re-join to it. */
  function NameWords(givenName: Option<string>): (words: seq<string>)
    ensures words == [] <==> givenName.GetOr("") == ""
    ensures Join(words) == givenName.GetOr("")
    ensures forall i :: 0 <= i < |words| ==> ' ' !in words[i]
  {
    JoinSplit(givenName.GetOr(""));
    if givenName.None? || givenName.value == "" then [] else Split(givenName.value)
  }

  /** The profile built from the claims: id from `sub`, email from `email`, the
      first word of `given_name` as first name and the remaining words re-joined
      as last name, missing groups as none, and no explicit role. */
  function ProfileFromUserInfo(info: UserInfo): (p: OAuthProfile)
    ensures p.id == info.sub && p.email == info.email
    ensures p.groups == Some(info.groups.GetOr([])) && p.role.None?
    ensures p.firstName.Some? && p.lastName.Some?
    ensures info.givenName.None? || info.givenName == Some("") ==>
              p.firstName == Some("") && p.lastName == Some("")
    ensures info.givenName.Some? ==>
              var g := info.givenName.value;
              && p.firstName.value == g[..FirstSpace(g)]
              && (' ' in g ==> p.firstName.value + " " + p.lastName.value == g)
              && (' ' !in g ==> p.lastName.value == "")
  {
    var words := NameWords(info.givenName);
    SplitAtFirstSpace(info.givenName.GetOr(""));
    JoinSplit(info.givenName.GetOr(""));
    var first := if words == [] then "" else words[0];
    var last := if words == [] then "" else Join(words[1..]);
    OAuthProfile(info.sub, info.email, Some(first), Some(last), None, Some(info.groups.GetOr([])))
  }

  /** Logins through this strategy always resolve their role from the group
      claims, and succeed exactly when that resolution does. */
  lemma StrategyRoleFromGroups(roles: seq<RoleRow>, info: UserInfo)
    ensures ChooseRole(roles, ProfileFromUserInfo(info)) == GetRoleFromGroups(roles, Some(info.groups.GetOr([])))
  {
  }
}
