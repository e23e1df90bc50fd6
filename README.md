# pyApiTestTool path helpers in Dafny

This project models the string logic of `tools.py`, a small set of API smoke-test helpers:

- **`ApiPath`**: an immutable fluent path builder. Attribute access (`api.user`) and call access (`api(':name')`) each return a new builder whose path is the old one followed by `/` and the segment text. `str()` returns the accumulated path.
- **`path_by_join`**: joins a base URL and a path with a single `/`.
- **`domain_accessor`**: maps an environment number to one of three hosts.
- **`req_attr`**: a decorator. It derives a request path from the wrapped test function's name and calls the function with that path added as the keyword argument `path`.

Modules:

- `Strings` (`strings.dfy`): the Python string operations the helpers call: `str.split` on one character, `str.rstrip` and `str.lstrip`, and `str()` of an integer. `Join` (`c.join`) and `Replace` (single-character `str.replace`) are specification helpers; the helpers themselves never call them. They state that `Split` loses nothing and give the derived request path in closed form.
- `Paths` (`api_path.dfy`): `ApiPath` as a datatype. One `Append` step serves both access styles. The module also has access chains and their rendered form.
- `Urls` (`urls.dfy`): the `Domain` hosts, `domain_accessor`, `path_by_join`, and the URL that `get`/`post` request.
- `ReqAttr` (`req_attr.dfy`): the wrapper's loop `for n in nodes: p = p(n)` as a method with a loop invariant. It also covers the keyword-argument injection and the duplicate-`path` error.
- `Wrappers` (`wrappers.dfy`): an `Option` type.

Python reads the function's name through `f.__name__`. Here the name is an explicit string parameter. Attribute names captured by `__getattr__` are also explicit string arguments.

`path_by_join` strips every trailing `/` of the base and every leading `/` of the path (`rstrip('/')`, `lstrip('/')`), not just one. `Urls.PathByJoinStripsAll` shows this on `('http://host//', '//a/b')`.

## Model

| member | source | states |
|---|---|---|
| Paths.New | tools.py:56-57 | a fresh `ApiPath()` renders as the empty string |
| Paths.Append | tools.py:59-63 | the new path is one character longer than the old path plus the segment; the old path is its prefix, followed by `/` and then exactly the segment |
| Paths.GetAttr | tools.py:59-60 | `b.name` renders as `str(b)`, then `/`, then the attribute name |
| Paths.Call | tools.py:62-63 | `b(param)` renders as `str(b)`, then `/`, then the `%s` text of the parameter; with a string parameter it is the same builder as attribute access |
| Paths.ParamText | tools.py:62-63 | a string parameter is used verbatim; an integer parameter becomes canonical decimal text (optional `-`, no redundant leading zero, no `-0`) that reads back as the integer, which fixes the text |
| Paths.Render | tools.py:65-68 | `str(b)` loses nothing: the builder is recovered from the string it renders |
| Paths.Step | tools.py:48-53 | one access, `.name` or `(param)`, renders as the old path, `/`, and the access's text |
| Paths.ChainRender | tools.py:48-53 | a chain of accesses `b.x(y).z` renders as `str(b)` followed by `'/' + text` for each access in order |
| Paths.AttrCallAgree | tools.py:59-63 | `b.seg` and `b('seg')` give the same builder, whose path is the old path followed by `/` and `seg` |
| Paths.AppendAllPath | tools.py:59-63 | appending segments one after another to any builder adds exactly `'/' + s1 + … + '/' + sn` to its path |
| Paths.BuildFromNew | tools.py:56-66 | after segments s1..sn the empty builder renders as the concatenation of `'/' + si`; its length is the sum of `len(si) + 1`; it starts with `/` when n ≥ 1 |
| Paths.ChainsAgree | tools.py:59-63 | a chain of attribute accesses and a chain of call accesses with the same texts give the same builder |
| Paths.ChainConcat | tools.py:48-50 | chained access composes: running two chains one after the other equals running their concatenation |
| Paths.SplitRendered | tools.py:59-66 | when no segment holds `/`, `str(p).split('/')` returns `['']` followed by the segments; the rendering loses nothing |
| Paths.DocExamples | tools.py:44-50 | `api.user` is `/user` and `api.user.get` is `/user/get` |
| Paths.DocCallExample | tools.py:51-53 | `api.user(':name').detail` is `/user/:name/detail` |
| Paths.IntParamExample | tools.py:62-63 | an integer parameter is printed in decimal: `api.user(42)` is `/user/42` |
| Strings.Split | tools.py:161 | `s.split(c)` always returns at least one piece, so `[1:]` of it is defined for every name |
| Strings.SplitCount | tools.py:161 | `s.split(c)` has one more piece than `s` has occurrences of `c` |
| Strings.SplitPiecesWithoutSeparator | tools.py:161 | no piece of `s.split(c)` contains `c` |
| Strings.JoinSplit | tools.py:161 | `c.join(s.split(c)) == s` |
| Strings.SplitJoin | tools.py:161 | `c.join(parts).split(c) == parts` when no part holds `c` |
| Strings.RStrip | tools.py:95 | the result is a prefix of the input that does not end in `/`; every character removed is `/` |
| Strings.LStrip | tools.py:96 | the result is a suffix of the input that does not start with `/`; every character removed is `/` |
| Strings.RStripExact | tools.py:95 | a string that does not end in `c`, followed by any number of `c`, strips back to that string |
| Strings.LStripExact | tools.py:96 | any number of `c` followed by a string that does not start with `c` strips back to that string |
| Strings.IntToString | tools.py:63 | `str(i)` is an optional `-` followed by at least one decimal digit with no redundant leading zero, reads back as `i`, and starts with `-` exactly when `i` is negative |
| Strings.IntToStringParseInt | tools.py:63 | the other direction of the round trip: canonical integer text `s` satisfies `str(int(s)) == s` |
| Strings.CanonicalIntTextUnique | tools.py:63 | two canonical texts of the same integer are equal, so the contract of `str(i)` determines its text |
| Strings.NatToStringParseNat | tools.py:63 | a digit string without a redundant leading zero is the decimal text of its value |
| Strings.ParseNatToString | tools.py:63 | the decimal text of a natural number reads back as that number |
| Strings.IntToStringInjective | tools.py:63 | different integer parameters give different path segments |
| Urls.DomainAccessor | tools.py:102-110 | a host is returned exactly for the keys 0, 1 and 2 |
| Urls.DomainTable | tools.py:102-110 | 0 gives Pro, 1 gives Dev, 2 gives Local, and every other integer gives `None` |
| Urls.DefaultIsDev | tools.py:102-104 | with its default argument `domain_accessor()` returns Dev, `http://development_host` |
| Urls.DomainRoundTrip | tools.py:105-109 | the table is a bijection between {0, 1, 2} and the three hosts |
| Urls.Host | tools.py:31-34 | every host is an `http://` URL that does not end in `/` |
| Urls.HostsDistinct | tools.py:31-34 | the three host strings differ |
| Urls.PathByJoin | tools.py:91-99 | after the stripped base the result has exactly one `/`, with no `/` just before it or just after it |
| Urls.PathByJoinClean | tools.py:95-97 | for any number of trailing slashes on a clean base and leading slashes on a clean path, the result is base, one `/`, path |
| Urls.PathByJoinParts | tools.py:95-97 | every input splits into its stripped part and its slashes, and the result is stripped base, `/`, stripped path |
| Urls.PathByJoinIdempotent | tools.py:95-97 | joining already stripped inputs gives the same URL |
| Urls.PathByJoinExample | tools.py:91-99 | `path_by_join('http://host/', '/a/b') == 'http://host/a/b'` |
| Urls.PathByJoinStripsAll | tools.py:95-96 | every slash goes: `path_by_join('http://host//', '//a/b') == 'http://host/a/b'` |
| Urls.RequestUrl | tools.py:119-120 | `get`/`post` request the development host (`Domain.Dev`), one `/`, and the path without its leading slashes |
| Urls.RequestUrlOfRooted | tools.py:138-139 | a path with exactly one leading `/` is appended to the development host unchanged |
| ReqAttr.Nodes | tools.py:161 | `name.split('_')[1:]` has as many tokens as the name has `_`, and no token contains `_` |
| ReqAttr.DerivePath | tools.py:160-167 | the loop `p = p(n)` followed by the trailing `/` yields the concatenation of `'/' + tok` over the tokens, followed by `/` |
| ReqAttr.Inject | tools.py:169 | the call fails when `path` is already a keyword; otherwise positional arguments are unchanged, every caller keyword keeps its value, and only `path` is added, holding the derived path |
| ReqAttr.Wrapper | tools.py:155-171 | a caller-supplied `path` gives the duplicate-keyword error; otherwise the result is the wrapped function's result on the forwarded arguments plus `path` |
| ReqAttr.SlashedSplit | tools.py:161-166 | folding the pieces of a split through `ApiPath.__call__` gives `/` followed by the string with every separator replaced by `/` |
| ReqAttr.DerivedPathClosedForm | tools.py:160-167 | a name with no `_` yields `/`; otherwise the path is `/`, then the name after its first `_` with every `_` replaced by `/`, then `/` |
| ReqAttr.DerivedPathShape | tools.py:164-167 | the derived path starts and ends with `/`; its length is the name's length minus its first token, plus one |
| ReqAttr.DerivedPathSplits | tools.py:161-167 | for a name without `/`, the path without its closing `/`, split on `/`, gives `['']` followed by the tokens |
| ReqAttr.DerivedPathOfTest | tools.py:174-175 | `test_sync_del_member` yields `/sync/del/member/` |
| ReqAttr.DerivedPathOfOneNode | tools.py:160-167 | `test_x` yields `/x/` |
| ReqAttr.DerivedPathOfNoNode | tools.py:160-167 | a name without `_` (`test`) yields `/` |
| ReqAttr.DerivedRequestUrl | tools.py:178-185 | a decorated test's request goes to the development host followed by its derived path when the name has no `_`, or when its first token is non-empty and does not start with `/` |
| ReqAttr.DerivedPathOfDoubleUnderscore | tools.py:160-167 | `test__x` yields `//x/`: an empty token still adds a `/` |
| ReqAttr.DoubleUnderscoreRequestUrl | tools.py:119-120 | `path_by_join` strips both leading slashes of `//x/`, so the request for `test__x` goes to the development host followed by `/x/`, not by the derived path |

## Left out

- `log` and `log_fmt_http` (tools.py:71-88): they read the wall clock and print to standard output. The fields they print come from an opaque HTTP response object.
- `get` and `post` (tools.py:113-148): they make network calls through `requests`. Only the URL they compute is modelled (`Urls.RequestUrl`).
- The body of `test_sync_del_member` and `main` (tools.py:174-198): these are live HTTP calls and status assertions. `main` also calls three functions that the file does not define.
- `EnumCustom.members`, `StrEnum` and `RequestMethod` (tools.py:20-39): these rely on Python enum reflection. Only the three `Domain` string values are kept, as `Urls.Host`.
- Python's attribute lookup: `__getattr__` runs only for names not found otherwise, so a name like `_path` never appends. Attribute names are explicit strings here.
- `f.__name__` introspection: the name is a parameter.
- The `__repr__` alias: it is the same method as `__str__` (`Paths.Render`).
- Paths.ParamText: covers string and integer parameters only. A `bool` is an `int` subtype in Python but prints as `True` or `False`, not `1` or `0`; `Int` does not cover it. `'%s' % param` on any other Python object calls that object's own `__str__`, which is not part of this model. Integers are unbounded here, whereas CPython 3.11 and later raises `ValueError` when converting an integer of more than 4300 decimal digits to text; that error is not modelled.
- ReqAttr.Wrapper: the wrapped function is a total Dafny function of the forwarded arguments. An exception raised inside it, which Python propagates unchanged, is not modelled. The keyword values are strings or opaque handles, and the `TypeError` message text is reduced to the keyword's name. Keyword arguments are a `map`, so their order is not kept: Python passes `path` first and then the caller's keywords, and a wrapped function that reads `list(kwargs)` would see that order.
- `domain_accessor` returning `None`: if that result reached `path_by_join`, Python would raise on `None.rstrip`. `get` and `post` always use the default argument 1, so that path is never taken and `Urls.RequestUrl` does not model it.
