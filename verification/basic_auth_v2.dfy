/**
 * What 0x02-Session_authentication/api/v1/auth/basic_auth.py adds to the header
 * pipeline: finding the user for a credential pair, and current_user, which runs
 * the whole chain on a request. The user store behind User.search is a sequence
 * of user records in the store's order, and User.is_valid_password a predicate
 * supplied by the caller: neither is part of this model.
 */
module BasicAuthV2 {
  import opened Wrappers
  import Api = ApiAuthV1
  import opened BasicAuthV1
  import Base64
  import Utf8

  /** A stored user, as far as this lookup reads it. */
  datatype User = User(id: string, email: string)

  /** Position i holds the first user with the email. */
  predicate IsFirstWithEmail(users: seq<User>, email: string, i: nat)
    requires i < |users|
  {
    users[i].email == email && forall j :: 0 <= j < i ==> users[j].email != email
  }

  /** User.search({'email': email}): the users with that email, in store order. */
  function Search(users: seq<User>, email: string): (found: seq<User>)
    ensures forall u :: u in found ==> u in users && u.email == email
    ensures forall i :: 0 <= i < |users| && IsFirstWithEmail(users, email, i) ==> found != [] && found[0] == users[i]
    ensures found != [] ==> exists i :: 0 <= i < |users| && users[i].email == email
    decreases |users|
  {
    if users == [] then []
    else
      var rest := Search(users[1..], email);
      if users[0].email == email then
        [users[0]] + rest
      else
        assert forall i :: 1 <= i < |users| ==> users[i] == users[1..][i - 1];
        rest
  }

  /**
   * user_object_from_credentials: None when either credential is missing or no
   * user has the email; otherwise the first user with that email, provided the
   * password is valid for it.
   */
  function UserObjectFromCredentials(email: Option<string>, password: Option<string>,
                                     users: seq<User>, isValidPassword: (User, string) -> bool): (r: Option<User>)
    ensures email.None? || password.None? ==> r.None?
    ensures email.Some? && (forall u :: u in users ==> u.email != email.value) ==> r.None?
    ensures r.Some? ==> r.value in users && r.value.email == email.value && isValidPassword(r.value, password.value)
  {
    if email.None? || password.None? then None
    else
      var found := Search(users, email.value);
      if found == [] then None
      else if !isValidPassword(found[0], password.value) then None
      else Some(found[0])
  }

  /**
   * current_user: the authorization header, stripped of its scheme, decoded,
   * split and looked up, stopping with None at the first step that yields None.
   */
  function CurrentUser(request: Option<Api.Request>, users: seq<User>,
                       isValidPassword: (User, string) -> bool): (r: Option<User>)
    ensures r.Some? ==>
      && request.Some?
      && Api.AuthorizationKey in request.value.headers
      && var header := request.value.headers[Api.AuthorizationKey];
      && Scheme <= header
      && var text := DecodeBase64AuthorizationHeader(Some(header[|Scheme|..]));
      && text.Some? && ':' in text.value
      && r.value in users && ':' !in r.value.email && r.value.email + ":" <= text.value
      && isValidPassword(r.value, text.value[|r.value.email| + 1..])
  {
    if request.None? then None
    else
      var header := Api.AuthorizationHeader(request);
      if header.None? then None
      else
        var encoded := ExtractBase64AuthorizationHeader(header);
        if encoded.None? then None
        else
          var text := DecodeBase64AuthorizationHeader(encoded);
          if text.None? then None
          else
            var (email, password) := ExtractUserCredentials(text);
            if email.None? || password.None? then None
            else
              var u := UserObjectFromCredentials(email, password, users, isValidPassword);
              assert u.Some? ==>
                && text.value == u.value.email + ":" + password.value
                && text.value[|u.value.email| + 1..] == password.value;
              u
  }

  /**
   * Once some user has the email, the first such user decides: the lookup returns
   * it when the password is valid for it and None otherwise, whatever later users hold.
   */
  lemma FirstMatchDecides(email: string, password: string, users: seq<User>,
                          isValidPassword: (User, string) -> bool, i: nat)
    requires i < |users| && IsFirstWithEmail(users, email, i)
    ensures UserObjectFromCredentials(Some(email), Some(password), users, isValidPassword) ==
      if isValidPassword(users[i], password) then Some(users[i]) else None
  {
  }

  /**
   * A request whose Authorization header is "Basic " followed by any text the base64
   * decoder turns into the UTF-8 bytes of "e:p", with no ':' in e, is resolved by
   * looking up exactly e and p.
   */
  lemma CurrentUserOfEncodedCredentials(headers: map<string, string>, e: string, p: string,
                                        users: seq<User>, isValidPassword: (User, string) -> bool)
    requires ':' !in e
    requires Api.AuthorizationKey in headers
    requires Scheme <= headers[Api.AuthorizationKey]
    requires Base64.Decode(headers[Api.AuthorizationKey][|Scheme|..]) == Some(Utf8.Encode(e + ":" + p))
    ensures CurrentUser(Some(Api.Request(headers)), users, isValidPassword) ==
      UserObjectFromCredentials(Some(e), Some(p), users, isValidPassword)
  {
    var encoded := headers[Api.AuthorizationKey][|Scheme|..];
    assert headers[Api.AuthorizationKey] == Scheme + encoded;
    ExtractAfterScheme(encoded);
    DecodeSucceeds(encoded, e + ":" + p);
    SplitRecoversPair(e, p);
  }

  /** Without an Authorization header, or with one that does not start with "Basic ", there is no user. */
  lemma NoBasicHeaderNoUser(request: Api.Request, users: seq<User>, isValidPassword: (User, string) -> bool)
    requires Api.AuthorizationKey !in request.headers || !(Scheme <= request.headers[Api.AuthorizationKey])
    ensures CurrentUser(Some(request), users, isValidPassword) == None
  {
  }
}
