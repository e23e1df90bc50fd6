/** Host selection and URL joining of tools.py: the `Domain` hosts,
    `domain_accessor`, `path_by_join`, and the URL that `get` and `post`
    request. */
module Urls {
  import Strings
  import opened Wrappers

  /** The three hosts of the `Domain` string enum. */
  datatype Domain = Pro | Dev | Local

  /** The string value of a `Domain` member: an `http://` URL with no
      trailing '/'. */
  function Host(d: Domain): (h: string)
    ensures |h| > |"http://"| && h[..|"http://"|] == "http://"
    ensures h[|h| - 1] != '/'
  {
    match d
    case Pro => "http://product_host"
    case Dev => "http://development_host"
    case Local => "http://local_host"
  }

  /** The default argument of `domain_accessor`. */
  const DefaultEnv: int := 1

  /** `domain_accessor(env)`: a dictionary lookup `{0: Pro, 1: Dev, 2: Local}.get(env)`. */
  function DomainAccessor(env: int): (r: Option<Domain>)
    ensures r.Some? <==> 0 <= env <= 2
  {
    if env == 0 then Some(Pro)
    else if env == 1 then Some(Dev)
    else if env == 2 then Some(Local)
    else None
  }

  /** The key under which `domain_accessor`'s table holds each host. */
  function EnvOf(d: Domain): (env: int)
    ensures 0 <= env <= 2
  {
    match d
    case Pro => 0
    case Dev => 1
    case Local => 2
  }

  /** `path_by_join(base, path)`: `base.rstrip('/')`, one '/', `path.lstrip('/')`. */
  function PathByJoin(base: string, path: string): (url: string)
    ensures var b := Strings.RStrip(base, '/');
            |b| < |url| && url[..|b|] == b && url[|b|] == '/'
            && (|b| == 0 || url[|b| - 1] != '/')
            && (|b| + 1 == |url| || url[|b| + 1] != '/')
  {
    Strings.RStrip(base, '/') + "/" + Strings.LStrip(path, '/')
  }

  /** The URL `get(path)` and `post(path)` send their request to: the
      development host, one '/', and the path without its leading slashes. */
  function RequestUrl(path: string): (url: string)
    ensures url == Host(Dev) + "/" + Strings.LStrip(path, '/')
  {
    var d := DomainAccessor(DefaultEnv);
    var h := Host(d.value);
    DefaultIsDev();
    Strings.RStripExact(h, '/', 0);
    assert h + Strings.Repeat('/', 0) == h;
    PathByJoin(h, path)
  }

  // ---------------------------------------------------------------------
  // Properties

  /** The lookup table, entry by entry, and `None` for every other key. */
  lemma DomainTable(env: int)
    ensures DomainAccessor(0) == Some(Pro)
    ensures DomainAccessor(1) == Some(Dev)
    ensures DomainAccessor(2) == Some(Local)
    ensures env !in {0, 1, 2} ==> DomainAccessor(env) == None
  {
  }

  /** `domain_accessor()` with its default argument is the development host. */
  lemma DefaultIsDev()
    ensures DomainAccessor(DefaultEnv) == Some(Dev)
    ensures Host(DomainAccessor(DefaultEnv).value) == "http://development_host"
  {
  }

  /** The table is a bijection between {0, 1, 2} and the three hosts. */
  lemma DomainRoundTrip(d: Domain, env: int)
    ensures DomainAccessor(EnvOf(d)) == Some(d)
    ensures DomainAccessor(env) == Some(d) ==> env == EnvOf(d)
  {
  }

  /** The three host strings differ, so the environment is recoverable from the host. */
  lemma HostsDistinct(d: Domain, e: Domain)
    ensures Host(d) == Host(e) ==> d == e
  {
    if d != e {
      assert Host(d)[7] != Host(e)[7];
    }
  }

  /** Whatever the number of slashes around the junction, `path_by_join`
      keeps the two clean halves and puts exactly one '/' between them. */
  lemma PathByJoinClean(b: string, p: string, m: nat, n: nat)
    requires b == [] || b[|b| - 1] != '/'
    requires p == [] || p[0] != '/'
    ensures PathByJoin(b + Strings.Repeat('/', m), Strings.Repeat('/', n) + p) == b + "/" + p
  {
    Strings.RStripExact(b, '/', m);
    Strings.LStripExact(p, '/', n);
  }

  /** Conversely, every join is of that form: the base without its trailing
      slashes, one '/', the path without its leading slashes. */
  lemma PathByJoinParts(base: string, path: string)
    ensures var b := Strings.RStrip(base, '/');
            var p := Strings.LStrip(path, '/');
            base == b + Strings.Repeat('/', |base| - |b|)
            && path == Strings.Repeat('/', |path| - |p|) + p
            && PathByJoin(base, path) == b + "/" + p
  {
    Strings.RStripDecomposes(base, '/');
    Strings.LStripDecomposes(path, '/');
  }

  /** Joining is insensitive to slashes already stripped. */
  lemma PathByJoinIdempotent(base: string, path: string)
    ensures PathByJoin(Strings.RStrip(base, '/'), Strings.LStrip(path, '/')) == PathByJoin(base, path)
  {
    Strings.RStripIdempotent(base, '/');
    Strings.LStripIdempotent(path, '/');
  }

  /** `path_by_join('http://host/', '/a/b') == 'http://host/a/b'`. */
  lemma PathByJoinExample()
    ensures PathByJoin("http://host/", "/a/b") == "http://host/a/b"
  {
    var b, p := "http://host", "a/b";
    var slash := Strings.Repeat('/', 1);
    assert PathByJoin(b + slash, slash + p) == b + "/" + p by {
      PathByJoinClean(b, p, 1, 1);
    }
    assert slash == "/";
    assert b + slash == "http://host/";
    assert slash + p == "/a/b";
  }

  /** Every trailing and leading slash goes, not just one:
      `path_by_join('http://host//', '//a/b') == 'http://host/a/b'`. */
  lemma PathByJoinStripsAll()
    ensures PathByJoin("http://host//", "//a/b") == "http://host/a/b"
  {
    var b, p := "http://host", "a/b";
    var slashes := Strings.Repeat('/', 2);
    assert PathByJoin(b + slashes, slashes + p) == b + "/" + p by {
      PathByJoinClean(b, p, 2, 2);
    }
    assert slashes == "//";
    assert b + slashes == "http://host//";
    assert slashes + p == "//a/b";
  }

  /** A path with one leading '/' is appended to the development host as is. */
  lemma RequestUrlOfRooted(rel: string)
    requires rel == [] || rel[0] != '/'
    ensures RequestUrl("/" + rel) == Host(Dev) + "/" + rel
  {
    Strings.LStripExact(rel, '/', 1);
    assert Strings.Repeat('/', 1) == "/";
  }
}
