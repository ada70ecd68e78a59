/**
 * The API authentication base class of the Basic-authentication project
 * (0x01-Basic_authentication/api/v1/auth/auth.py): which request paths need
 * authentication, and where a request's credentials are read from.
 */
module ApiAuthV1 {
  import opened Wrappers

  /** An incoming request, as far as authentication reads it: its header map. */
  datatype Request = Request(headers: map<string, string>)

  const AuthorizationKey: string := "Authorization"

  predicate EndsWith(s: string, c: char) {
    |s| > 0 && s[|s| - 1] == c
  }

  /** The request path with a trailing '/' added when it lacks one. */
  function Normalize(path: string): (p: string)
    ensures EndsWith(p, '/')
    ensures path <= p && |p| <= |path| + 1
    ensures EndsWith(path, '/') ==> p == path
  {
    if EndsWith(path, '/') then path else path + "/"
  }

  /** This version's only rule: an entry exempts the normalised path equal to it, and only an entry ending in '/'. */
  predicate Exempts(entry: string, p: string) {
    EndsWith(entry, '/') && p == entry
  }

  /**
   * Whether a request for path needs authentication: always when the path or the
   * list of excluded paths is missing or the list is empty, and otherwise exactly
   * when no entry of the list exempts the normalised path.
   */
  function RequiresAuth(path: Option<string>, excluded: Option<seq<string>>): bool {
    path.None? || excluded.None? || |excluded.value| == 0 ||
    !exists i :: 0 <= i < |excluded.value| && Exempts(excluded.value[i], Normalize(path.value))
  }

  /** Auth.require_auth: normalise the path, then scan the entries in order and stop at the first that exempts it. */
  method RequireAuth(path: Option<string>, excludedPaths: Option<seq<string>>) returns (r: bool)
    ensures r == RequiresAuth(path, excludedPaths)
  {
    if path.None? || excludedPaths.None? || |excludedPaths.value| == 0 {
      return true;
    }
    var p := path.value;
    if !EndsWith(p, '/') {
      p := p + "/";
    }
    assert p == Normalize(path.value);
    var entries := excludedPaths.value;
    for i := 0 to |entries|
      invariant forall k :: 0 <= k < i ==> !Exempts(entries[k], p)
    {
      if EndsWith(entries[i], '/') && p == entries[i] {
        return false;
      }
    }
    return true;
  }

  /** Auth.authorization_header: the value of the Authorization header, when the request carries one. */
  function AuthorizationHeader(request: Option<Request>): (r: Option<string>)
    ensures r.Some? <==> request.Some? && AuthorizationKey in request.value.headers
    ensures r.Some? ==> r.value == request.value.headers[AuthorizationKey]
  {
    if request.None? then None
    else if AuthorizationKey !in request.value.headers then None
    else Some(request.value.headers[AuthorizationKey])
  }

  /**
   * With a path and a non-empty list, authentication is waived exactly when the
   * normalised path itself is one of the entries.
   */
  lemma WaivedIffListed(path: string, excluded: seq<string>)
    requires |excluded| > 0
    ensures !RequiresAuth(Some(path), Some(excluded)) <==> Normalize(path) in excluded
  {
    var p := Normalize(path);
    if p in excluded {
      var i :| 0 <= i < |excluded| && excluded[i] == p;
      assert Exempts(excluded[i], p);
    }
  }

  /** A path and the same path with a '/' appended get the same answer. */
  lemma TrailingSlashIrrelevant(path: string, excluded: Option<seq<string>>)
    requires !EndsWith(path, '/')
    ensures RequiresAuth(Some(path), excluded) == RequiresAuth(Some(path + "/"), excluded)
  {
    assert Normalize(path + "/") == path + "/";
  }

  /** '*' is an ordinary character here: an entry ending in it exempts no path. */
  lemma StarEntryExemptsNothing(entry: string, path: string)
    requires EndsWith(entry, '*')
    ensures !Exempts(entry, Normalize(path))
  {
  }

  /**
   * The answer depends only on which entries are present: reordering or repeating
   * entries changes nothing, and adding entries can only waive authentication.
   */
  lemma MoreEntriesWaiveMore(path: Option<string>, fewer: seq<string>, more: seq<string>)
    requires forall e :: e in fewer ==> e in more
    ensures !RequiresAuth(path, Some(fewer)) ==> !RequiresAuth(path, Some(more))
  {
    if !RequiresAuth(path, Some(fewer)) {
      var i :| 0 <= i < |fewer| && Exempts(fewer[i], Normalize(path.value));
      assert fewer[i] in more;
      var j :| 0 <= j < |more| && more[j] == fewer[i];
    }
  }

  /** Reordering the entries does not change the answer. */
  lemma OrderIrrelevant(path: Option<string>, xs: seq<string>, ys: seq<string>)
    requires multiset(xs) == multiset(ys)
    ensures RequiresAuth(path, Some(xs)) == RequiresAuth(path, Some(ys))
  {
    forall e | e in xs ensures e in ys {
      assert e in multiset(xs);
    }
    forall e | e in ys ensures e in xs {
      assert e in multiset(ys);
    }
    MoreEntriesWaiveMore(path, xs, ys);
    MoreEntriesWaiveMore(path, ys, xs);
  }
}
