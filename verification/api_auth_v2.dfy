/**
 * The API authentication base class of the Session-authentication project
 * (0x02-Session_authentication/api/v1/auth/auth.py). It differs from the earlier
 * version in one point: an excluded entry ending in '*' exempts every path that
 * starts with the rest of the entry.
 */
module ApiAuthV2 {
  import opened Wrappers
  import V1 = ApiAuthV1

  /**
   * An entry ending in '*' exempts every normalised path it is, without the '*', a
   * prefix of; an entry ending in '/' exempts the equal path; any other entry nothing.
   */
  predicate Exempts(entry: string, p: string) {
    if V1.EndsWith(entry, '*') then entry[..|entry| - 1] <= p
    else V1.EndsWith(entry, '/') && p == entry
  }

  function RequiresAuth(path: Option<string>, excluded: Option<seq<string>>): bool {
    path.None? || excluded.None? || |excluded.value| == 0 ||
    !exists i :: 0 <= i < |excluded.value| && Exempts(excluded.value[i], V1.Normalize(path.value))
  }

  /** Auth.require_auth with wildcard entries: normalise, then return False at the first exempting entry. */
  method RequireAuth(path: Option<string>, excludedPaths: Option<seq<string>>) returns (r: bool)
    ensures r == RequiresAuth(path, excludedPaths)
  {
    if path.None? || excludedPaths.None? || |excludedPaths.value| == 0 {
      return true;
    }
    var p := path.value;
    if !V1.EndsWith(p, '/') {
      p := p + "/";
    }
    assert p == V1.Normalize(path.value);
    var entries := excludedPaths.value;
    for i := 0 to |entries|
      invariant forall k :: 0 <= k < i ==> !Exempts(entries[k], p)
    {
      var entry := entries[i];
      if V1.EndsWith(entry, '*') {
        if entry[..|entry| - 1] <= p {
          return false;
        }
      } else if V1.EndsWith(entry, '/') && p == entry {
        return false;
      }
    }
    return true;
  }

  /** A wildcard entry in the list waives authentication for every path starting with its stem. */
  lemma WildcardWaivesPrefix(path: string, excluded: seq<string>, i: nat)
    requires i < |excluded| && V1.EndsWith(excluded[i], '*')
    requires excluded[i][..|excluded[i]| - 1] <= V1.Normalize(path)
    ensures !RequiresAuth(Some(path), Some(excluded))
  {
    assert Exempts(excluded[i], V1.Normalize(path));
  }

  /** An entry ending in '/' exempts exactly the normalised path equal to it. */
  lemma SlashEntryExemptsOnlyItself(entry: string, path: string)
    requires V1.EndsWith(entry, '/')
    ensures Exempts(entry, V1.Normalize(path)) <==> V1.Normalize(path) == entry
  {
  }

  /** An entry ending in neither '/' nor '*' exempts nothing. */
  lemma PlainEntryExemptsNothing(entry: string, path: string)
    requires !V1.EndsWith(entry, '/') && !V1.EndsWith(entry, '*')
    ensures !Exempts(entry, V1.Normalize(path))
  {
  }

  /** A path and the same path with a '/' appended get the same answer. */
  lemma TrailingSlashIrrelevant(path: string, excluded: Option<seq<string>>)
    requires !V1.EndsWith(path, '/')
    ensures RequiresAuth(Some(path), excluded) == RequiresAuth(Some(path + "/"), excluded)
  {
    assert V1.Normalize(path + "/") == path + "/";
  }

  /** Only the set of entries matters, and adding entries can only waive authentication. */
  lemma MoreEntriesWaiveMore(path: Option<string>, fewer: seq<string>, more: seq<string>)
    requires forall e :: e in fewer ==> e in more
    ensures !RequiresAuth(path, Some(fewer)) ==> !RequiresAuth(path, Some(more))
  {
    if !RequiresAuth(path, Some(fewer)) {
      var i :| 0 <= i < |fewer| && Exempts(fewer[i], V1.Normalize(path.value));
      assert fewer[i] in more;
      var j :| 0 <= j < |more| && more[j] == fewer[i];
    }
  }

  /** Reordering the entries does not change the answer. */
  lemma OrderIrrelevant(path: Option<string>, xs: seq<string>, ys: seq<string>)
    requires multiset(xs) == multiset(ys)
    ensures RequiresAuth(path, Some(xs)) == RequiresAuth(path, Some(ys))
  {
    forall e | e in xs ensures e in ys {
      assert e in multiset(xs);
    }
    forall e | e in ys ensures e in xs {
      assert e in multiset(ys);
    }
    MoreEntriesWaiveMore(path, xs, ys);
    MoreEntriesWaiveMore(path, ys, xs);
  }

  /**
   * This version only adds exemptions to the earlier one, and the two agree on
   * every list without a wildcard entry.
   */
  lemma ExtendsFirstVersion(path: Option<string>, excluded: Option<seq<string>>)
    ensures !V1.RequiresAuth(path, excluded) ==> !RequiresAuth(path, excluded)
    ensures excluded.Some? && (forall e :: e in excluded.value ==> !V1.EndsWith(e, '*')) ==>
      RequiresAuth(path, excluded) == V1.RequiresAuth(path, excluded)
  {
    if path.Some? && excluded.Some? {
      var p := V1.Normalize(path.value);
      var ex := excluded.value;
      forall i | 0 <= i < |ex| && V1.Exempts(ex[i], p) ensures Exempts(ex[i], p) {
      }
      if forall e :: e in ex ==> !V1.EndsWith(e, '*') {
        forall i | 0 <= i < |ex| && Exempts(ex[i], p) ensures V1.Exempts(ex[i], p) {
          assert ex[i] in ex;
        }
      }
    }
  }

  /** The documented example: the entry "/api/v1/stat*" waives authentication for "/api/v1/status". */
  lemma StatusMatchesStatWildcard()
    ensures !RequiresAuth(Some("/api/v1/status"), Some(["/api/v1/stat*"]))
  {
    WildcardWaivesPrefix("/api/v1/status", ["/api/v1/stat*"], 0);
  }
}
