/** `comparable_path_for`: the form in which the current request's path and
    the link's path are compared, under the `:ignore_params` option. */
module PathNormalizer {
  import opened Ruby
  import Uri

  /** An element of an `:ignore_params` array: a Symbol or a String. */
  datatype ParamName = Sym(name: string) | Str(name: string) {
    /** `p.to_s`: a symbol and a string with the same characters agree. */
    function ToS(): string { name }
  }

  /** The value of `:ignore_params`. `OtherValue` is any value that is
      neither `:all` nor an Array (the String `"all"`, `true`, ...). */
  datatype IgnoreParams = NoPolicy | All | Names(names: seq<ParamName>) | OtherValue

  /** One query parameter. */
  datatype Param = Param(key: string, value: string)

  /** Rack's `parse_query` and ActiveSupport's `Hash#to_query`, as supplied
      by the framework; `parse` reads a missing query as the empty one. */
  datatype QueryCodec = QueryCodec(parse: string -> seq<Param>, serialize: seq<Param> -> string)

  /** `path.gsub` of the pattern `\?.*` by the empty string: every `?` is
      removed together with the rest of its line (`.` does not match a
      newline). */
  function StripQuery(s: string): (r: string)
    ensures '?' !in r
    ensures |r| <= |s|
    decreases |s|
  {
    if s == [] then []
    else if s[0] == '?' then StripQuery(RestOfLineOn(s[1..]))
    else [s[0]] + StripQuery(s[1..])
  }

  /** `s` from its first newline on: what `.*` leaves unmatched. */
  function RestOfLineOn(s: string): (r: string)
    ensures |r| <= |s| && r == s[|s| - |r|..]
    ensures r == [] || r[0] == '\n'
    ensures '\n' !in s[..|s| - |r|]
    ensures '\n' !in s ==> r == []
    decreases |s|
  {
    if s == [] || s[0] == '\n' then s else RestOfLineOn(s[1..])
  }

  /** The query names as strings: `ignore_params.map { |p| p.to_s }`. */
  function StringForms(names: seq<ParamName>): (keys: seq<string>)
    ensures |keys| == |names|
    ensures forall i :: 0 <= i < |names| ==> keys[i] == names[i].name
  {
    seq(|names|, i requires 0 <= i < |names| => names[i].ToS())
  }

  /** `Hash#except(*keys)`: the parameters whose key is not listed, in order. */
  function Except(ps: seq<Param>, keys: seq<string>): (r: seq<Param>)
    ensures forall i :: 0 <= i < |r| ==> r[i].key !in keys && r[i] in ps
    ensures forall i :: 0 <= i < |ps| && ps[i].key !in keys ==> ps[i] in r
    decreases |ps|
  {
    if ps == [] then []
    else (if ps[0].key in keys then [] else [ps[0]]) + Except(ps[1..], keys)
  }

  /** The parameters in the query of `path`, as the codec reads them
      (`Rack::Utils.parse_query(uri.query)`, where a missing query is `nil`). */
  function QueryParams(codec: QueryCodec, path: string): seq<Param> {
    codec.parse(Uri.Parse(path).query.GetOr(""))
  }

  /** The parameters that survive an array policy. */
  function KeptParams(path: string, names: seq<ParamName>, codec: QueryCodec): seq<Param> {
    Except(QueryParams(codec, path), StringForms(names))
  }

  /** `comparable_path_for(path)`: under `:all` no query mark is left, under
      an Array the part before the query is kept and a query is always
      present, and any other policy leaves the path as it is. */
  function ComparablePath(path: string, policy: IgnoreParams, codec: QueryCodec): (r: string)
    ensures policy.All? ==> '?' !in r
    ensures policy.Names? ==> Uri.Parse(r).base == Uri.Parse(path).base && Uri.Parse(r).query.Some?
    ensures !policy.All? && !policy.Names? ==> r == path
  {
    match policy
    case All => StripQuery(path)
    case Names(names) =>
      var u := Uri.Parse(path);
      Uri.SetQueryKeepsBase(u, codec.serialize(KeptParams(path, names, codec)));
      Uri.ToString(u.(query := Some(codec.serialize(KeptParams(path, names, codec)))))
    case _ => path
  }

  /** A string without `?` is left as it is. */
  lemma {:induction false} StripQueryNoQuery(s: string)
    requires '?' !in s
    ensures StripQuery(s) == s
    decreases |s|
  {
    if s != [] {
      StripQueryNoQuery(s[1..]);
      assert s == [s[0]] + s[1..];
    }
  }

  /** What `.*` leaves after a `?` on a line that is followed by another is
      that line's newline and everything after it. */
  lemma {:induction false} RestOfLineSkip(a: string, b: string)
    requires '\n' !in a
    ensures RestOfLineOn(a + ['\n'] + b) == ['\n'] + b
    decreases |a|
  {
    if a == [] {
      assert a + ['\n'] + b == ['\n'] + b;
    } else {
      assert (a + ['\n'] + b)[1..] == a[1..] + ['\n'] + b;
      RestOfLineSkip(a[1..], b);
    }
  }

  /** A newline is kept by stripping. */
  lemma StripQueryNewline(b: string)
    ensures StripQuery(['\n'] + b) == ['\n'] + StripQuery(b)
  {
    assert (['\n'] + b)[1..] == b;
  }

  /** A character other than `?` is kept by stripping. */
  lemma StripQueryCons(c: char, t: string)
    requires c != '?'
    ensures StripQuery([c] + t) == [c] + StripQuery(t)
  {
    assert ([c] + t)[1..] == t;
  }

  /** A line that starts with `?` strips to nothing, and stripping it with
      the lines after it leaves their newline and the rest stripped. */
  lemma StripQueryFromMark(a: string, b: string)
    requires '\n' !in a && a != [] && a[0] == '?'
    ensures StripQuery(a) == []
    ensures StripQuery(a + ['\n'] + b) == ['\n'] + StripQuery(b)
  {
    var s := a + ['\n'] + b;
    assert s[0] == '?';
    assert s[1..] == a[1..] + ['\n'] + b;
    RestOfLineSkip(a[1..], b);
    StripQueryNewline(b);
  }

  /** An empty line followed by a newline and `y` is just the newline and `y`. */
  lemma EmptyLineBefore(x: string, y: string)
    requires x == []
    ensures x + ['\n'] + y == ['\n'] + y
  {
  }

  /** Stripping works line by line: a newline is kept, and each line is
      stripped on its own. */
  lemma {:induction false} StripQueryLines(a: string, b: string)
    requires '\n' !in a
    ensures StripQuery(a + ['\n'] + b) == StripQuery(a) + ['\n'] + StripQuery(b)
    decreases |a|
  {
    if a == [] {
      assert a + ['\n'] + b == ['\n'] + b;
      StripQueryNewline(b);
      EmptyLineBefore(StripQuery(a), StripQuery(b));
    } else if a[0] == '?' {
      StripQueryFromMark(a, b);
      EmptyLineBefore(StripQuery(a), StripQuery(b));
    } else {
      var t := a[1..] + ['\n'] + b;
      assert a + ['\n'] + b == [a[0]] + t;
      assert a == [a[0]] + a[1..];
      StripQueryCons(a[0], t);
      StripQueryCons(a[0], a[1..]);
      StripQueryLines(a[1..], b);
      var x, y := StripQuery(a[1..]), StripQuery(b);
      assert StripQuery(a + ['\n'] + b) == [a[0]] + (x + ['\n'] + y);
      assert [a[0]] + (x + ['\n'] + y) == ([a[0]] + x) + ['\n'] + y;
    }
  }

  /** Stripping `"a?b\nc"` gives `"a\nc"`: the query is removed up to the
      newline only. */
  lemma StripQueryExample()
    ensures StripQuery("a?b\nc") == "a\nc"
  {
    ExampleLines();
    ExampleFirstLine();
    StripQueryNoQuery("c");
    StripQueryLines("a?b", "c");
  }

  /** The literals of `StripQueryExample`, split at the newline. */
  lemma ExampleLines()
    ensures "a?b\nc" == "a?b" + ['\n'] + "c"
    ensures "a" + ['\n'] + "c" == "a\nc"
  {
  }

  /** The first line of `StripQueryExample` strips to `"a"`. */
  lemma ExampleFirstLine()
    ensures StripQuery("a?b") == "a"
  {
    assert "a?b" == ['a'] + "?b";
    StripQueryCons('a', "?b");
    StripQueryFromMark("?b", "");
  }

  /** On a single line, stripping truncates just before the first `?`. */
  lemma {:induction false} StripQuerySingleLine(s: string)
    requires '\n' !in s
    ensures StripQuery(s) == Uri.CutAt(s, '?').0
    decreases |s|
  {
    if s != [] {
      if s[0] == '?' {
        assert '\n' !in s[1..];
      } else {
        assert '\n' !in s[1..];
        StripQuerySingleLine(s[1..]);
      }
    }
  }

  /** Under `:all` the result holds no `?`, is the path itself when it has no
      query, is the part before the first `?` when the path is one line, and
      normalising it again changes nothing. */
  lemma AllPolicyStrips(path: string, codec: QueryCodec)
    ensures '?' !in ComparablePath(path, All, codec)
    ensures '?' !in path ==> ComparablePath(path, All, codec) == path
    ensures '\n' !in path ==> ComparablePath(path, All, codec) == Uri.CutAt(path, '?').0
    ensures '\n' !in path ==> path == ComparablePath(path, All, codec) + path[|ComparablePath(path, All, codec)|..]
    ensures ComparablePath(ComparablePath(path, All, codec), All, codec) == ComparablePath(path, All, codec)
  {
    var r := StripQuery(path);
    StripQueryNoQuery(r);
    if '?' !in path {
      StripQueryNoQuery(path);
    }
    if '\n' !in path {
      StripQuerySingleLine(path);
      assert path[..|r|] == r;
    }
  }

  /** Under an array policy the result, read back as a URI, has the same base
      and fragment as the path, and its query is the kept parameters
      serialised (present even when that serialisation is empty). */
  lemma NamesPolicyShape(path: string, names: seq<ParamName>, codec: QueryCodec)
    requires '#' !in codec.serialize(KeptParams(path, names, codec))
    ensures Uri.Parse(ComparablePath(path, Names(names), codec))
         == Uri.Parse(path).(query := Some(codec.serialize(KeptParams(path, names, codec))))
  {
    var u := Uri.Parse(path);
    Uri.ParseToString(u.(query := Some(codec.serialize(KeptParams(path, names, codec)))));
  }

  /** Under an array policy, and with a codec that reads back the same pairs
      it wrote, in any order (as `to_query`, which sorts the keys, and
      `parse_query` do):
      no listed key remains in the result's query, every unlisted parameter
      of the path's query remains, nothing else appears, and the part before
      the query is unchanged. */
  lemma NamesPolicyFilters(path: string, names: seq<ParamName>, codec: QueryCodec)
    requires '#' !in codec.serialize(KeptParams(path, names, codec))
    requires forall p :: p in codec.parse(codec.serialize(KeptParams(path, names, codec))) <==> p in KeptParams(path, names, codec)
    ensures forall p :: p in QueryParams(codec, ComparablePath(path, Names(names), codec)) ==>
      p.key !in StringForms(names) && p in QueryParams(codec, path)
    ensures forall p, j :: p in QueryParams(codec, ComparablePath(path, Names(names), codec)) && 0 <= j < |names| ==>
      p.key != names[j].name
    ensures forall p :: p in QueryParams(codec, path) && p.key !in StringForms(names) ==>
      p in QueryParams(codec, ComparablePath(path, Names(names), codec))
    ensures Uri.Parse(ComparablePath(path, Names(names), codec)).base == Uri.Parse(path).base
  {
    NamesPolicyShape(path, names, codec);
    var kept := KeptParams(path, names, codec);
    assert QueryParams(codec, ComparablePath(path, Names(names), codec)) == codec.parse(codec.serialize(kept));
    forall p | p in QueryParams(codec, path) && p.key !in StringForms(names)
      ensures p in kept
    {
      var i :| 0 <= i < |QueryParams(codec, path)| && QueryParams(codec, path)[i] == p;
    }
  }

  /** Removing keys a second time removes nothing more. */
  lemma {:induction false} ExceptIdempotent(ps: seq<Param>, keys: seq<string>)
    ensures Except(Except(ps, keys), keys) == Except(ps, keys)
    decreases |ps|
  {
    if ps != [] {
      ExceptIdempotent(ps[1..], keys);
      var head := if ps[0].key in keys then [] else [ps[0]];
      var r := Except(ps[1..], keys);
      ExceptAppend(head, r, keys);
      assert Except(head, keys) == head;
    }
  }

  /** `Except` distributes over concatenation. */
  lemma {:induction false} ExceptAppend(a: seq<Param>, b: seq<Param>, keys: seq<string>)
    ensures Except(a + b, keys) == Except(a, keys) + Except(b, keys)
    decreases |a|
  {
    if a == [] {
      assert a + b == b;
    } else {
      assert (a + b)[1..] == a[1..] + b;
      ExceptAppend(a[1..], b, keys);
    }
  }

  /** With a codec that writes no `#`, reads back only pairs it wrote, and
      writes the re-read pairs as it wrote them (true of a key-sorting
      `to_query`), normalising under an array policy is idempotent. */
  lemma NamesPolicyIdempotent(path: string, names: seq<ParamName>, codec: QueryCodec)
    requires '#' !in codec.serialize(KeptParams(path, names, codec))
    requires forall p :: p in codec.parse(codec.serialize(KeptParams(path, names, codec))) ==> p in KeptParams(path, names, codec)
    requires codec.serialize(codec.parse(codec.serialize(KeptParams(path, names, codec)))) == codec.serialize(KeptParams(path, names, codec))
    ensures ComparablePath(ComparablePath(path, Names(names), codec), Names(names), codec)
         == ComparablePath(path, Names(names), codec)
  {
    var kept := KeptParams(path, names, codec);
    var r := ComparablePath(path, Names(names), codec);
    NamesPolicyShape(path, names, codec);
    var reread := codec.parse(codec.serialize(kept));
    assert QueryParams(codec, r) == reread;
    forall i | 0 <= i < |reread|
      ensures reread[i].key !in StringForms(names)
    {
      assert reread[i] in kept;
    }
    ExceptNone(reread, StringForms(names));
    assert KeptParams(r, names, codec) == reread;
    assert Uri.Parse(r).(query := Some(codec.serialize(kept))) == Uri.Parse(r);
  }

  /** Removing keys that no parameter has changes nothing. */
  lemma {:induction false} ExceptNone(ps: seq<Param>, keys: seq<string>)
    requires forall i :: 0 <= i < |ps| ==> ps[i].key !in keys
    ensures Except(ps, keys) == ps
    decreases |ps|
  {
    if ps != [] {
      assert ps[0].key !in keys;
      assert Except(ps, keys) == [ps[0]] + Except(ps[1..], keys);
      ExceptNone(ps[1..], keys);
      assert ps == [ps[0]] + ps[1..];
    }
  }

  /** Removing keys that every parameter has leaves nothing. */
  lemma {:induction false} ExceptAllListed(ps: seq<Param>, keys: seq<string>)
    requires forall i :: 0 <= i < |ps| ==> ps[i].key in keys
    ensures Except(ps, keys) == []
    decreases |ps|
  {
    if ps != [] {
      ExceptAllListed(ps[1..], keys);
    }
  }

  /** Under an array policy, a request that only inserts parameters the
      policy lists, anywhere in its query, normalises to the same path: adding
      ignored parameters does not change whether a link is selected. */
  lemma ListedParamsIgnored(p1: string, p2: string, a: seq<Param>, extra: seq<Param>, b: seq<Param>,
                            names: seq<ParamName>, codec: QueryCodec)
    requires Uri.Parse(p1).base == Uri.Parse(p2).base && Uri.Parse(p1).fragment == Uri.Parse(p2).fragment
    requires QueryParams(codec, p1) == a + b && QueryParams(codec, p2) == a + extra + b
    requires forall i :: 0 <= i < |extra| ==> extra[i].key in StringForms(names)
    ensures ComparablePath(p2, Names(names), codec) == ComparablePath(p1, Names(names), codec)
  {
    var keys := StringForms(names);
    ExceptAppend(a, b, keys);
    ExceptAppend(a + extra, b, keys);
    ExceptAppend(a, extra, keys);
    ExceptAllListed(extra, keys);
    assert Except(a + extra, keys) == Except(a, keys);
    assert KeptParams(p2, names, codec) == KeptParams(p1, names, codec);
    var q := Some(codec.serialize(KeptParams(p1, names, codec)));
    assert Uri.Parse(p2).(query := q) == Uri.Parse(p1).(query := q);
  }
}
