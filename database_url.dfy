/**
 * The connection URL handed to the database engine: managed hosts give
 * `postgres://` URLs, and the psycopg2 dialect wants `postgresql://`.
 */
module DatabaseUrl {

  import Text

  const Postgres := "postgres://"
  const Postgresql := "postgresql://"

  /**
   * The rewrite of `DATABASE_URL`: a URL that starts with `postgres://`
   * gets its first occurrence of that text replaced by `postgresql://`;
   * any other URL is used as it is.
   */
  function EngineUrl(url: string): (r: string)
    ensures Text.StartsWith(url, Postgres) ==> r == Postgresql + url[|Postgres|..]
    ensures !Text.StartsWith(url, Postgres) ==> r == url
  {
    if Text.StartsWith(url, Postgres) then Text.ReplaceFirst(url, Postgres, Postgresql) else url
  }

  /** The result never starts with the old scheme. */
  lemma NoOldScheme(url: string)
    ensures !Text.StartsWith(EngineUrl(url), Postgres)
  {
    if Text.StartsWith(url, Postgres) {
      assert EngineUrl(url)[8] == 'q';
    }
  }

  /** A URL already in the `postgresql://` scheme is left alone. */
  lemma NewSchemeUnchanged(url: string)
    requires Text.StartsWith(url, Postgresql)
    ensures EngineUrl(url) == url
  {
    assert url[8] == 'q';
  }

  /** Rewriting twice is rewriting once. */
  lemma Idempotent(url: string)
    ensures EngineUrl(EngineUrl(url)) == EngineUrl(url)
  {
    NoOldScheme(url);
  }

  /**
   * Only the scheme is rewritten: the rest of the URL, including any later
   * `postgres://` text, is kept as it was.
   */
  lemma RestKept(rest: string)
    ensures EngineUrl(Postgres + rest) == Postgresql + rest
    ensures Text.Contains(rest, Postgres) ==> Text.Contains(EngineUrl(Postgres + rest), Postgres)
  {
    var url := Postgres + rest;
    assert url[..|Postgres|] == Postgres;
    assert url[|Postgres|..] == rest;
    var r := EngineUrl(url);
    if Text.Contains(rest, Postgres) {
      var k := ContainsSomewhere(rest, Postgres);
      assert r[|Postgresql| + k..|Postgresql| + k + |Postgres|] == rest[k..k + |Postgres|];
      Text.ContainsAt(r, Postgres, |Postgresql| + k);
    }
  }

  /** Where a contained string occurs. */
  lemma {:induction false} ContainsSomewhere(s: string, sub: string) returns (k: nat)
    requires Text.Contains(s, sub)
    ensures k + |sub| <= |s| && s[k..k + |sub|] == sub
    decreases |s|
  {
    if Text.StartsWith(s, sub) {
      k := 0;
    } else {
      var j := ContainsSomewhere(s[1..], sub);
      k := j + 1;
    }
  }
}
