/** The fluent URL path builder `ApiPath` of tools.py. A builder is an
    immutable value holding one accumulated string; attribute access
    (`api.user`) and call access (`api(':name')`) both return a new builder
    whose path is the old one followed by `/` and the segment text. */
module Paths {
  import Strings

  /** One builder; `path` is Python's `_path`. */
  datatype ApiPath = ApiPath(path: string)

  /** An argument of call access. Python formats any object with `%s`;
      the model covers strings and integers. */
  datatype Param = Text(text: string) | Int(value: int)

  /** `'%s' % param`: a string verbatim, an integer as canonical decimal
      text that reads back as the integer (which fixes the text, by
      `Strings.CanonicalIntTextUnique`). */
  function ParamText(param: Param): (s: string)
    ensures param.Text? ==> s == param.text
    ensures param.Int? ==> Strings.IsCanonicalIntText(s) && Strings.ParseInt(s) == param.value
  {
    match param
    case Text(t) => t
    case Int(i) => Strings.IntToString(i)
  }

  /** `ApiPath()`: the builder with the default empty path. */
  function New(): (b: ApiPath)
    ensures Render(b) == ""
  {
    ApiPath("")
  }

  /** The one step both access styles reduce to: `'%s/%s' % (_path, seg)`. */
  function Append(b: ApiPath, seg: string): (r: ApiPath)
    ensures |r.path| == |b.path| + 1 + |seg|
    ensures b.path <= r.path && r.path[|b.path|] == '/' && r.path[|b.path| + 1..] == seg
  {
    ApiPath(b.path + "/" + seg)
  }

  /** `__getattr__`: `b.<name>`, with the attribute name made explicit. */
  function GetAttr(b: ApiPath, name: string): (r: ApiPath)
    ensures Render(r) == Render(b) + "/" + name
  {
    Append(b, name)
  }

  /** `__call__`: `b(param)`. */
  function Call(b: ApiPath, param: Param): (r: ApiPath)
    ensures Render(r) == Render(b) + "/" + ParamText(param)
    ensures param.Text? ==> r == GetAttr(b, param.text)
  {
    Append(b, ParamText(param))
  }

  /** `__str__` (and `__repr__`, which is the same method). */
  function Render(b: ApiPath): (s: string)
    ensures ApiPath(s) == b
  {
    b.path
  }

  /** One access in a chain: `.name` or `(param)`. */
  datatype Access = Attr(name: string) | Invoke(param: Param)

  /** The text one access appends. */
  function AccessText(a: Access): string
  {
    match a
    case Attr(n) => n
    case Invoke(p) => ParamText(p)
  }

  /** The texts of an access chain, in order. */
  function Texts(accesses: seq<Access>): seq<string>
    decreases |accesses|
  {
    if accesses == [] then [] else [AccessText(accesses[0])] + Texts(accesses[1..])
  }

  /** `b.name` or `b(param)`. */
  function Step(b: ApiPath, a: Access): (r: ApiPath)
    ensures Render(r) == Render(b) + "/" + AccessText(a)
  {
    match a
    case Attr(n) => GetAttr(b, n)
    case Invoke(p) => Call(b, p)
  }

  /** Evaluates an access chain left to right, as Python does `b.x.y(z)`. */
  function Chain(b: ApiPath, accesses: seq<Access>): ApiPath
    decreases |accesses|
  {
    if accesses == [] then b else Chain(Step(b, accesses[0]), accesses[1..])
  }

  /** `Texts` of a non-empty chain, first access split off. */
  lemma SlashedTexts(accesses: seq<Access>)
    requires accesses != []
    ensures Slashed(Texts(accesses)) == "/" + AccessText(accesses[0]) + Slashed(Texts(accesses[1..]))
  {
    var ts := Texts(accesses);
    assert ts[1..] == Texts(accesses[1..]);
    assert ts[0] == AccessText(accesses[0]);
  }

  /** Appends each segment in turn, left to right. */
  function AppendAll(b: ApiPath, segs: seq<string>): ApiPath
    decreases |segs|
  {
    if segs == [] then b else AppendAll(Append(b, segs[0]), segs[1..])
  }

  /** The text each segment contributes, `'/' + seg`, concatenated. */
  function Slashed(segs: seq<string>): string
    decreases |segs|
  {
    if segs == [] then "" else "/" + segs[0] + Slashed(segs[1..])
  }

  /** Sum of the segment lengths. */
  function TotalLength(segs: seq<string>): nat
    decreases |segs|
  {
    if segs == [] then 0 else |segs[0]| + TotalLength(segs[1..])
  }

  function Attrs(segs: seq<string>): (r: seq<Access>)
    ensures |r| == |segs|
    ensures forall k :: 0 <= k < |segs| ==> r[k] == Attr(segs[k])
  {
    seq(|segs|, k requires 0 <= k < |segs| => Attr(segs[k]))
  }

  function Invokes(segs: seq<string>): (r: seq<Access>)
    ensures |r| == |segs|
    ensures forall k :: 0 <= k < |segs| ==> r[k] == Invoke(Text(segs[k]))
  {
    seq(|segs|, k requires 0 <= k < |segs| => Invoke(Text(segs[k])))
  }

  // ---------------------------------------------------------------------
  // Properties

  /** Attribute access and call access with the same text agree, and the
      original builder keeps its path as a prefix of the new one. */
  lemma AttrCallAgree(b: ApiPath, seg: string)
    ensures GetAttr(b, seg) == Call(b, Text(seg))
    ensures Render(GetAttr(b, seg)) == Render(b) + "/" + seg
  {
  }

  /** `Slashed` of a list with one more segment at the end. */
  lemma {:induction false} SlashedSnoc(segs: seq<string>, seg: string)
    ensures Slashed(segs + [seg]) == Slashed(segs) + "/" + seg
    decreases |segs|
  {
    if segs == [] {
      assert [] + [seg] == [seg];
    } else {
      assert (segs + [seg])[1..] == segs[1..] + [seg];
      SlashedSnoc(segs[1..], seg);
    }
  }

  /** Appending segments to any builder adds exactly `Slashed(segs)`. */
  lemma {:induction false} AppendAllPath(b: ApiPath, segs: seq<string>)
    ensures AppendAll(b, segs).path == b.path + Slashed(segs)
    decreases |segs|
  {
    if segs != [] {
      AppendAllPath(Append(b, segs[0]), segs[1..]);
    }
  }

  /** A fresh builder given segments s1..sn renders as '/' + s1 + ... + '/' + sn,
      so it has length sum(|si| + 1) and starts with '/' when n >= 1. */
  lemma BuildFromNew(segs: seq<string>)
    ensures Render(AppendAll(New(), segs)) == Slashed(segs)
    ensures |Render(AppendAll(New(), segs))| == TotalLength(segs) + |segs|
    ensures segs != [] ==> Render(AppendAll(New(), segs))[0] == '/'
  {
    AppendAllPath(New(), segs);
    SlashedLength(segs);
  }

  lemma {:induction false} SlashedLength(segs: seq<string>)
    ensures |Slashed(segs)| == TotalLength(segs) + |segs|
    decreases |segs|
  {
    if segs != [] {
      SlashedLength(segs[1..]);
    }
  }

  /** A chain of attribute accesses and a chain of call accesses with the
      same texts produce the same builder, the one `AppendAll` produces. */
  lemma {:induction false} ChainsAgree(b: ApiPath, segs: seq<string>)
    ensures Chain(b, Attrs(segs)) == AppendAll(b, segs)
    ensures Chain(b, Invokes(segs)) == AppendAll(b, segs)
    decreases |segs|
  {
    if segs != [] {
      assert Attrs(segs)[1..] == Attrs(segs[1..]);
      assert Invokes(segs)[1..] == Invokes(segs[1..]);
      ChainsAgree(Append(b, segs[0]), segs[1..]);
    }
  }

  /** A chain appends the texts of its accesses, each after a '/'. */
  lemma {:induction false} ChainRender(b: ApiPath, accesses: seq<Access>)
    ensures Render(Chain(b, accesses)) == Render(b) + Slashed(Texts(accesses))
    decreases |accesses|
  {
    if accesses == [] {
      assert Render(b) + "" == Render(b);
    } else {
      var next := Step(b, accesses[0]);
      var text, tail := AccessText(accesses[0]), Slashed(Texts(accesses[1..]));
      assert Render(Chain(b, accesses)) == Render(next) + tail by {
        ChainRender(next, accesses[1..]);
      }
      assert Render(next) == Render(b) + "/" + text;
      assert Slashed(Texts(accesses)) == "/" + text + tail by {
        SlashedTexts(accesses);
      }
      assert Render(b) + "/" + text + tail == Render(b) + ("/" + text + tail);
    }
  }

  /** Chains compose: running one chain and then another is running their
      concatenation. */
  lemma {:induction false} ChainConcat(b: ApiPath, xs: seq<Access>, ys: seq<Access>)
    ensures Chain(b, xs + ys) == Chain(Chain(b, xs), ys)
    decreases |xs|
  {
    if xs == [] {
      assert xs + ys == ys;
    } else {
      assert (xs + ys)[1..] == xs[1..] + ys;
      ChainConcat(Step(b, xs[0]), xs[1..], ys);
    }
  }

  /** The rendered path can be split back into its segments when no segment
      holds a '/': `str(p).split('/') == [''] + segs`. */
  lemma SplitRendered(segs: seq<string>)
    requires forall k :: 0 <= k < |segs| ==> '/' !in segs[k]
    ensures Strings.Split(Render(AppendAll(New(), segs)), '/') == [""] + segs
  {
    AppendAllPath(New(), segs);
    assert Render(AppendAll(New(), segs)) == "" + Slashed(segs);
    SplitSlashedAfter("", segs);
  }

  lemma {:induction false} SplitSlashedAfter(head: string, segs: seq<string>)
    requires '/' !in head
    requires forall k :: 0 <= k < |segs| ==> '/' !in segs[k]
    ensures Strings.Split(head + Slashed(segs), '/') == [head] + segs
    decreases |segs|
  {
    if segs == [] {
      assert head + "" == head;
      Strings.SplitWithoutSeparator(head, '/');
    } else {
      var rest := segs[0] + Slashed(segs[1..]);
      assert head + Slashed(segs) == head + ['/'] + rest;
      Strings.SplitAtSeparator(head, rest, '/');
      Strings.SplitWithoutSeparator(head, '/');
      assert forall k :: 0 <= k < |segs[1..]| ==> '/' !in segs[1..][k] by {
        forall k | 0 <= k < |segs[1..]| ensures '/' !in segs[1..][k] { assert segs[1..][k] == segs[k + 1]; }
      }
      SplitSlashedAfter(segs[0], segs[1..]);
      assert segs == [segs[0]] + segs[1..];
    }
  }

  /** The attribute examples of the class documentation:
      `api.user` is `/user` and `api.user.get` is `/user/get`. */
  lemma DocExamples()
    ensures Render(GetAttr(New(), "user")) == "/user"
    ensures Render(GetAttr(GetAttr(New(), "user"), "get")) == "/user/get"
  {
    var user := GetAttr(New(), "user");
    assert user == ApiPath("/user");
  }

  /** The call example of the class documentation:
      `api.user(':name').detail` is `/user/:name/detail`. */
  lemma DocCallExample()
    ensures Render(GetAttr(Call(GetAttr(New(), "user"), Text(":name")), "detail")) == "/user/:name/detail"
  {
    var user := GetAttr(New(), "user");
    assert user == ApiPath("/user");
    var name := Call(user, Text(":name"));
    assert name == ApiPath("/user/:name");
  }

  /** An integer parameter is printed in decimal: `api.user(42)` is `/user/42`. */
  lemma IntParamExample()
    ensures Render(Call(GetAttr(New(), "user"), Int(42))) == "/user/42"
  {
    var user := GetAttr(New(), "user");
    assert user == ApiPath("/user");
    assert ParamText(Int(42)) == "42" by {
      assert Strings.NatToString(4) == "4";
      assert Strings.NatToString(42) == Strings.NatToString(4) + [Strings.DigitChar(2)];
    }
    assert Call(user, Int(42)) == ApiPath("/user/42");
  }
}
