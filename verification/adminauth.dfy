/**
 * Server-side token checks: pull the ID token out of an `Authorization`
 * header and hand it to the token verifier, which is an oracle here.
 */
module AdminAuth {
  import opened Wrappers
  import opened Text

  /**
   * The admin SDK: absent when its credentials were missing at start-up,
   * otherwise a verifier that maps each token it accepts to the user id
   * decoded from it.
   */
  datatype Admin = Uninitialized | Initialized(accepted: map<string, string>)

  const NotInitializedMessage := "Firebase Admin not initialized"
  const InvalidTokenMessage := "Invalid ID token"
  const BadHeaderMessage := "Missing or invalid Authorization header"
  const BearerPrefix := "Bearer "

  /** `verifyIdToken`: fails when there is no admin SDK, and turns any verifier failure into one message. */
  function VerifyIdToken(admin: Admin, token: string): (r: Result<string>)
    ensures admin.Uninitialized? ==> r == Err(NotInitializedMessage)
    ensures admin.Initialized? ==> (r.Ok? <==> token in admin.accepted)
    ensures r.Ok? ==> admin.Initialized? && token in admin.accepted && r.value == admin.accepted[token]
    ensures r.Err? && admin.Initialized? ==> r.message == InvalidTokenMessage
  {
    match admin
    case Uninitialized => Err(NotInitializedMessage)
    case Initialized(accepted) =>
      if token in accepted then Ok(accepted[token]) else Err(InvalidTokenMessage)
  }

  /** A string that starts with the separator splits into "" and the split of what follows it. */
  lemma SplitAfterLeadingSeparator(s: string, sep: string)
    requires |sep| > 0 && OccursAt(s, 0, sep)
    ensures Split(s, sep) == [""] + Split(s[|sep|..], sep)
  {
    assert IndexOfFrom(s, sep, 0) == 0;
  }

  /** The first part of a split is the text before the first occurrence of the separator. */
  lemma FirstPart(s: string, sep: string)
    requires |sep| > 0
    ensures var p := Split(s, sep)[0];
      && p == s[..|p|]
      && (|p| == |s| || OccursAt(s, |p|, sep))
      && forall j | 0 <= j < |p| :: !OccursAt(s, j, sep)
  {
  }

  /**
   * `authHeader.split("Bearer ")[1]`: the text after the prefix, up to but
   * not including the next `"Bearer "`.
   */
  function BearerToken(header: string): (token: string)
    requires StartsWith(header, BearerPrefix)
    ensures var rest := header[|BearerPrefix|..];
      && |token| <= |rest|
      && token == rest[..|token|]
      && (|token| == |rest| || OccursAt(rest, |token|, BearerPrefix))
      && forall j | 0 <= j < |token| :: !OccursAt(rest, j, BearerPrefix)
  {
    assert OccursAt(header, 0, BearerPrefix);
    SplitAfterLeadingSeparator(header, BearerPrefix);
    FirstPart(header[|BearerPrefix|..], BearerPrefix);
    Split(header, BearerPrefix)[1]
  }

  /**
   * `verifyAuthHeader`: a missing header, or one without the case-sensitive
   * `"Bearer "` prefix, fails; otherwise the extracted token is verified.
   */
  function VerifyAuthHeader(header: Option<string>, admin: Admin): (r: Result<string>)
    ensures (header.None? || !StartsWith(header.value, BearerPrefix)) ==> r == Err(BadHeaderMessage)
    ensures r.Ok? ==>
      && header.Some? && StartsWith(header.value, BearerPrefix)
      && admin.Initialized? && BearerToken(header.value) in admin.accepted
      && r.value == admin.accepted[BearerToken(header.value)]
    ensures header.Some? && StartsWith(header.value, BearerPrefix) ==>
      r == VerifyIdToken(admin, BearerToken(header.value))
  {
    match header
    case None => Err(BadHeaderMessage)
    case Some(h) =>
      if h == [] || !StartsWith(h, BearerPrefix) then Err(BadHeaderMessage)
      else VerifyIdToken(admin, BearerToken(h))
  }

  /** The header `"Bearer " + t` carries `t`, for any token `t` that does not itself hold `"Bearer "`. */
  lemma {:induction false} HeaderCarriesToken(t: string, admin: Admin)
    requires forall j | 0 <= j < |t| :: !OccursAt(t, j, BearerPrefix)
    ensures VerifyAuthHeader(Some(BearerPrefix + t), admin) == VerifyIdToken(admin, t)
  {
    var h := BearerPrefix + t;
    assert h[..|BearerPrefix|] == BearerPrefix;
    assert h[|BearerPrefix|..] == t;
    var token := BearerToken(h);
    assert token == t;
  }

  /** `"Bearer "` alone passes the prefix check and sends the empty token to the verifier. */
  lemma BareBearerSendsEmptyToken(admin: Admin)
    ensures VerifyAuthHeader(Some(BearerPrefix), admin) == VerifyIdToken(admin, "")
  {
    HeaderCarriesToken("", admin);
    assert BearerPrefix + "" == BearerPrefix;
  }
}
