/** The `req_attr` decorator of tools.py. Its wrapper derives a request path
    from the wrapped function's name (split on '_', drop the first token,
    fold the rest through `ApiPath.__call__`, add a trailing '/') and calls
    the function with that path as the extra keyword argument `path`.
    The function's name, which Python reads from `f.__name__`, is a
    parameter here, and so is the wrapped function itself. */
module ReqAttr {
  import Strings
  import Paths
  import Urls
  import opened Wrappers

  /** The tokens the path is built from: `name.split('_')[1:]`. */
  function Nodes(name: string): (nodes: seq<string>)
    ensures |nodes| == Strings.Count(name, '_')
    ensures forall k :: 0 <= k < |nodes| ==> '_' !in nodes[k]
  {
    Strings.SplitPiecesWithoutSeparator(name, '_');
    Strings.SplitCount(name, '_');
    Strings.Split(name, '_')[1..]
  }

  /** The path the wrapper injects, as a specification: each node
      contributes '/' and its text, and one more '/' closes the path. */
  function InjectedPath(name: string): string
  {
    Paths.Slashed(Nodes(name)) + "/"
  }

  /** The path computation inside the wrapper, with its loop `p = p(n)`. */
  method DerivePath(name: string) returns (path: string)
    ensures path == InjectedPath(name)
  {
    var nodes := Nodes(name);
    var p := Paths.New();
    for i := 0 to |nodes|
      invariant p.path == Paths.Slashed(nodes[..i])
    {
      Paths.SlashedSnoc(nodes[..i], nodes[i]);
      assert nodes[..i + 1] == nodes[..i] + [nodes[i]];
      p := Paths.Call(p, Paths.Text(nodes[i]));
    }
    assert nodes[..|nodes|] == nodes;
    path := Paths.Render(p) + "/";
  }

  // ---------------------------------------------------------------------
  // The call the wrapper makes

  /** A Python value passed as an argument. Only strings matter to the
      wrapper; every other object is an opaque handle. */
  datatype Value = Str(s: string) | Object(handle: nat)

  /** The positional and keyword arguments of one Python call. */
  datatype Arguments = Arguments(args: seq<Value>, kwargs: map<string, Value>)

  /** What a call of the wrapper ends in: the wrapped function's result, or the
      `TypeError` Python raises when `path` is passed twice. */
  datatype Outcome<R> = Returned(result: R) | DuplicateKeyword(keyword: string)

  /** `f(*args, path=path, **kwargs)`: the arguments the wrapped function
      receives, or `None` when the caller already supplied `path`. */
  function Inject(call: Arguments, path: string): (r: Option<Arguments>)
    ensures r.Some? <==> "path" !in call.kwargs
    ensures r.Some? ==> r.value.args == call.args
    ensures r.Some? ==> r.value.kwargs.Keys == call.kwargs.Keys + {"path"}
    ensures r.Some? ==> r.value.kwargs["path"] == Str(path)
    ensures r.Some? ==> forall k :: k in call.kwargs ==> r.value.kwargs[k] == call.kwargs[k]
  {
    if "path" in call.kwargs then None
    else Some(Arguments(call.args, call.kwargs["path" := Str(path)]))
  }

  /** `req_attr(f)(*args, **kwargs)` for a function named `name`. */
  method Wrapper<R>(name: string, f: Arguments -> R, call: Arguments) returns (o: Outcome<R>)
    ensures "path" in call.kwargs ==> o == DuplicateKeyword("path")
    ensures "path" !in call.kwargs ==>
      o == Returned(f(Arguments(call.args, call.kwargs["path" := Str(InjectedPath(name))])))
  {
    var path := DerivePath(name);
    var forwarded := Inject(call, path);
    if forwarded.None? {
      o := DuplicateKeyword("path");
    } else {
      o := Returned(f(forwarded.value));
    }
  }

  // ---------------------------------------------------------------------
  // Properties of the derived path

  /** `Slashed` over the pieces of a split equals '/' followed by the string
      with every separator turned into '/'. */
  lemma {:induction false} SlashedSplit(t: string, c: char)
    ensures Paths.Slashed(Strings.Split(t, c)) == "/" + Strings.Replace(t, c, '/')
    decreases |t|
  {
    if t != [] {
      SlashedSplit(t[1..], c);
      if t[0] == c {
        SlashedSplitAtSeparator(t, c);
      } else {
        SlashedSplitAtOther(t, c);
      }
    }
  }

  /** Inductive step of `SlashedSplit` when `t` starts with the separator. */
  lemma SlashedSplitAtSeparator(t: string, c: char)
    requires t != [] && t[0] == c
    requires Paths.Slashed(Strings.Split(t[1..], c)) == "/" + Strings.Replace(t[1..], c, '/')
    ensures Paths.Slashed(Strings.Split(t, c)) == "/" + Strings.Replace(t, c, '/')
  {
    var rest := Strings.Split(t[1..], c);
    var tail := Strings.Replace(t[1..], c, '/');
    assert Strings.Replace(t, c, '/') == ['/'] + tail;
    assert Strings.Split(t, c) == [""] + rest;
    assert ([""] + rest)[1..] == rest;
    assert Paths.Slashed([""] + rest) == "/" + "" + Paths.Slashed(rest);
    assert "/" + "" + ("/" + tail) == "/" + (['/'] + tail);
  }

  /** Inductive step of `SlashedSplit` when `t` starts with another character. */
  lemma SlashedSplitAtOther(t: string, c: char)
    requires t != [] && t[0] != c
    requires Paths.Slashed(Strings.Split(t[1..], c)) == "/" + Strings.Replace(t[1..], c, '/')
    ensures Paths.Slashed(Strings.Split(t, c)) == "/" + Strings.Replace(t, c, '/')
  {
    var rest := Strings.Split(t[1..], c);
    assert Strings.Split(t, c) == [[t[0]] + rest[0]] + rest[1..];
    SlashedExtendFirst(t[0], rest, Strings.Replace(t[1..], c, '/'));
    assert Strings.Replace(t, c, '/') == [t[0]] + Strings.Replace(t[1..], c, '/');
  }

  /** Putting a character in front of the first segment puts it right
      after the leading '/'. */
  lemma SlashedExtendFirst(x: char, segs: seq<string>, tail: string)
    requires |segs| >= 1
    requires Paths.Slashed(segs) == "/" + tail
    ensures Paths.Slashed([[x] + segs[0]] + segs[1..]) == "/" + ([x] + tail)
  {
    var first, more := segs[0], segs[1..];
    SlashedCons(first, more);
    assert [first] + more == segs;
    ExtendAfterSlash(x, first, Paths.Slashed(more), tail);
    SlashedCons([x] + first, more);
  }

  lemma SlashedCons(seg: string, segs: seq<string>)
    ensures Paths.Slashed([seg] + segs) == "/" + seg + Paths.Slashed(segs)
  {
    assert ([seg] + segs)[1..] == segs;
  }

  lemma ExtendAfterSlash(x: char, first: string, rest: string, tail: string)
    requires "/" + tail == "/" + first + rest
    ensures "/" + ([x] + first) + rest == "/" + ([x] + tail)
  {
    assert tail == first + rest by {
      assert ("/" + tail)[1..] == tail;
      assert ("/" + first + rest)[1..] == first + rest;
    }
  }

  /** The derived path in closed form: '/' when the name has no '_';
      otherwise '/', the name after its first '_' with every '_' turned
      into '/', and a closing '/'. */
  lemma DerivedPathClosedForm(name: string, i: nat)
    requires '_' !in name || (i < |name| && name[i] == '_' && '_' !in name[..i])
    ensures '_' !in name ==> InjectedPath(name) == "/"
    ensures '_' in name ==> InjectedPath(name) == "/" + Strings.Replace(name[i + 1..], '_', '/') + "/"
  {
    if '_' !in name {
      Strings.SplitWithoutSeparator(name, '_');
    } else {
      assert name == name[..i] + ['_'] + name[i + 1..];
      Strings.SplitAtSeparator(name[..i], name[i + 1..], '_');
      Strings.SplitWithoutSeparator(name[..i], '_');
      assert Nodes(name) == Strings.Split(name[i + 1..], '_');
      SlashedSplit(name[i + 1..], '_');
    }
  }

  /** The derived path always starts and ends with '/', and is as long as
      the name without its first token, plus one. */
  lemma DerivedPathShape(name: string)
    ensures var p := InjectedPath(name);
            |p| >= 1 && p[0] == '/' && p[|p| - 1] == '/'
    ensures |InjectedPath(name)| == |name| - |Strings.Split(name, '_')[0]| + 1
  {
    var nodes := Nodes(name);
    Paths.SlashedLength(nodes);
    var parts := Strings.Split(name, '_');
    Strings.JoinSplit(name, '_');
    JoinLength(parts);
    assert parts == [parts[0]] + nodes;
    assert Paths.TotalLength(parts) == |parts[0]| + Paths.TotalLength(nodes);
  }

  lemma {:induction false} JoinLength(parts: seq<string>)
    requires |parts| >= 1
    ensures |Strings.Join(parts, '_')| == Paths.TotalLength(parts) + |parts| - 1
    decreases |parts|
  {
    if |parts| > 1 {
      JoinLength(parts[1..]);
    }
  }

  /** The name with its tokens recovered: the path between its outer slashes,
      split on '/', gives back `name.split('_')[1:]` when no token holds a '/'. */
  lemma DerivedPathSplits(name: string)
    requires '/' !in name
    ensures var p := InjectedPath(name);
            Strings.Split(p[..|p| - 1], '/') == [""] + Nodes(name)
  {
    var nodes := Nodes(name);
    assert forall k :: 0 <= k < |nodes| ==> '/' !in nodes[k] by {
      var parts := Strings.Split(name, '_');
      forall k | 0 <= k < |nodes| ensures '/' !in nodes[k] {
        assert nodes[k] == parts[k + 1];
        SplitPieceInside(name, '_', k + 1);
      }
    }
    Paths.SplitRendered(nodes);
    Paths.BuildFromNew(nodes);
    var p := InjectedPath(name);
    assert p[..|p| - 1] == Paths.Slashed(nodes);
  }

  /** Every piece of a split is made of characters of the split string. */
  lemma {:induction false} SplitPieceInside(s: string, c: char, k: nat)
    requires k < |Strings.Split(s, c)|
    ensures forall ch :: ch in Strings.Split(s, c)[k] ==> ch in s
    decreases |s|
  {
    if s != [] {
      var rest := Strings.Split(s[1..], c);
      if s[0] == c {
        if k > 0 { SplitPieceInside(s[1..], c, k - 1); }
      } else if k == 0 {
        SplitPieceInside(s[1..], c, 0);
      } else {
        SplitPieceInside(s[1..], c, k);
      }
    }
  }

  /** The decorated test of tools.py: `test_sync_del_member` gets `/sync/del/member/`. */
  lemma DerivedPathOfTest()
    ensures InjectedPath("test_sync_del_member") == "/sync/del/member/"
  {
    var nodes := ["sync", "del", "member"];
    assert Nodes("test_sync_del_member") == nodes by {
      var parts := ["test"] + nodes;
      assert Strings.Join(parts, '_') == "test_sync_del_member" by {
        assert parts[1..][1..][1..] == ["member"];
        assert parts[1..][1..] == ["del", "member"];
        assert parts[1..] == nodes;
      }
      Strings.SplitJoin(parts, '_');
    }
    SlashedOfTestNodes();
  }

  lemma SlashedOfTestNodes()
    ensures Paths.Slashed(["sync", "del", "member"]) == "/sync/del/member"
  {
    var nodes := ["sync", "del", "member"];
    assert nodes[1..][1..][1..] == [];
    assert nodes[1..][1..] == ["member"];
    assert nodes[1..] == ["del", "member"];
  }

  /** A name with a single node, `test_x`, gets `/x/`. */
  lemma DerivedPathOfOneNode()
    ensures InjectedPath("test_x") == "/x/"
  {
    DerivedPathClosedForm("test_x", 4);
    assert Strings.Replace("x", '_', '/') == "x";
  }

  /** A name without '_' gets `/`. */
  lemma DerivedPathOfNoNode()
    ensures InjectedPath("test") == "/"
  {
    DerivedPathClosedForm("test", 0);
  }

  /** Where a decorated test's `post(path, ...)` goes: the development host
      followed by the derived path, unless the first node is empty or starts
      with '/' (then `path_by_join` strips more than the path's own leading
      '/', as `DoubleUnderscoreRequestUrl` shows). */
  lemma DerivedRequestUrl(name: string)
    requires |Nodes(name)| == 0 || (Nodes(name)[0] != [] && Nodes(name)[0][0] != '/')
    ensures Urls.RequestUrl(InjectedPath(name)) == Urls.Host(Urls.Dev) + InjectedPath(name)
  {
    var nodes := Nodes(name);
    var rel := if nodes == [] then "" else nodes[0] + Paths.Slashed(nodes[1..]) + "/";
    assert InjectedPath(name) == "/" + rel;
    Urls.RequestUrlOfRooted(rel);
  }

  /** An empty first node, as in `test__x`, gives a path with two leading
      slashes, `//x/`. */
  lemma DerivedPathOfDoubleUnderscore()
    ensures InjectedPath("test__x") == "//x/"
  {
    NodesOfDoubleUnderscore();
    SlashedOfDoubleUnderscoreNodes();
  }

  lemma NodesOfDoubleUnderscore()
    ensures Nodes("test__x") == ["", "x"]
  {
    var parts := ["test", "", "x"];
    assert Strings.Join(parts, '_') == "test__x" by {
      assert parts[1..][1..] == ["x"];
      assert parts[1..] == ["", "x"];
    }
    Strings.SplitJoin(parts, '_');
    assert parts[1..] == ["", "x"];
  }

  lemma SlashedOfDoubleUnderscoreNodes()
    ensures Paths.Slashed(["", "x"]) == "//x"
  {
    var nodes := ["", "x"];
    assert nodes[1..][1..] == [];
    assert nodes[1..] == ["x"];
  }

  /** `path_by_join` strips both leading slashes of `//x/`, so the request for
      `test__x` goes to `http://development_host/x/`, not to the host followed
      by the derived path. */
  lemma DoubleUnderscoreRequestUrl()
    ensures Urls.RequestUrl(InjectedPath("test__x")) == Urls.Host(Urls.Dev) + "/" + "x/"
    ensures Urls.RequestUrl(InjectedPath("test__x")) != Urls.Host(Urls.Dev) + InjectedPath("test__x")
  {
    var p := InjectedPath("test__x");
    assert p == "//x/" by {
      DerivedPathOfDoubleUnderscore();
    }
    assert Strings.LStrip(p, '/') == "x/" by {
      StripDoubleSlash();
    }
    assert |p| == 4;
  }

  lemma StripDoubleSlash()
    ensures Strings.LStrip("//x/", '/') == "x/"
  {
    Strings.LStripExact("x/", '/', 2);
    assert Strings.Repeat('/', 2) + "x/" == "//x/";
  }
}
