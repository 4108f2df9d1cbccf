/** The three components of a URI reference that `URI(path)`, `uri.query =`
    and `uri.to_s` work with: everything before the query, the query, and
    the fragment. Validation of the characters (which makes `URI` raise on a
    malformed reference) is not part of this model. */
module Uri {
  import opened Ruby

  /** `s` cut at its first `c`: the part before it and, when `c` occurs, the
      part after it. */
  function CutAt(s: string, c: char): (r: (string, Option<string>))
    ensures c !in r.0
    ensures r.1.None? <==> c !in s
    ensures r.1.None? ==> r.0 == s
    ensures r.1.Some? ==> s == r.0 + [c] + r.1.value
    decreases |s|
  {
    if s == [] then ([], None)
    else if s[0] == c then ([], Some(s[1..]))
    else
      var rest := CutAt(s[1..], c);
      ([s[0]] + rest.0, rest.1)
  }

  /** When `a` holds no `c`, cutting `a + [c] + b` gives back `a` and `b`. */
  lemma {:induction false} CutAtFirst(a: string, b: string, c: char)
    requires c !in a
    ensures CutAt(a + [c] + b, c) == (a, Some(b))
    decreases |a|
  {
    var s := a + [c] + b;
    if a == [] {
      assert s[1..] == b;
    } else {
      assert s[1..] == a[1..] + [c] + b;
      CutAtFirst(a[1..], b, c);
      assert [s[0]] + a[1..] == a;
    }
  }

  /** A URI reference: `base` is everything before the query (scheme,
      authority and path), then the optional query and fragment. */
  datatype Reference = Reference(base: string, query: Option<string>, fragment: Option<string>)

  /** What `Parse` produces: a base with neither `?` nor `#`, and a query
      without `#`. */
  predicate WellFormed(u: Reference) {
    && '?' !in u.base && '#' !in u.base
    && (u.query.Some? ==> '#' !in u.query.value)
  }

  /** `uri.to_s`: the components with `?` before a present query and `#`
      before a present fragment (a present but empty query still gets its `?`). */
  function ToString(u: Reference): string {
    u.base + Marked('?', u.query) + Marked('#', u.fragment)
  }

  /** `URI(s)`: the fragment starts at the first `#`, the query at the first
      `?` before it. */
  function Parse(s: string): (u: Reference)
    ensures WellFormed(u)
    ensures ToString(u) == s
  {
    var (beforeFragment, fragment) := CutAt(s, '#');
    var (base, query) := CutAt(beforeFragment, '?');
    CutAtRebuilds(s, '#');
    CutAtRebuilds(beforeFragment, '?');
    assert '#' !in base + Marked('?', query);
    Reference(base, query, fragment)
  }

  /** The two parts of a cut, the second with its marker, rebuild the string. */
  lemma CutAtRebuilds(s: string, c: char)
    ensures CutAt(s, c).0 + Marked(c, CutAt(s, c).1) == s
  {
  }

  /** Printing a well-formed reference and parsing it again gives it back. */
  lemma ParseToString(u: Reference)
    requires WellFormed(u)
    ensures Parse(ToString(u)) == u
  {
    var beforeFragment := u.base + Marked('?', u.query);
    assert '#' !in Marked('?', u.query);
    assert ToString(u) == beforeFragment + Marked('#', u.fragment);
    CutMarked(beforeFragment, '#', u.fragment);
    CutMarked(u.base, '?', u.query);
  }

  /** `uri.query = q` followed by `uri.to_s` keeps the part before the query
      as it was, whatever `q` holds, and parsing the result finds a query. */
  lemma SetQueryKeepsBase(u: Reference, q: string)
    requires '?' !in u.base && '#' !in u.base
    ensures Parse(ToString(u.(query := Some(q)))).base == u.base
    ensures Parse(ToString(u.(query := Some(q)))).query.Some?
  {
    var p := u.base + ['?'];
    var s := ToString(u.(query := Some(q)));
    assert s == p + (q + Marked('#', u.fragment));
    var x := CutAt(s, '#').0;
    assert |x| >= |p| && x[..|p|] == p by {
      if CutAt(s, '#').1.Some? {
        assert s == x + ['#'] + CutAt(s, '#').1.value;
        assert s[|x|] == '#';
        assert forall i :: 0 <= i < |p| ==> s[i] == p[i];
        assert x[..|p|] == s[..|p|];
      } else {
        assert x == s;
      }
    }
    assert x == u.base + ['?'] + x[|p|..];
    CutAtFirst(u.base, x[|p|..], '?');
  }

  /** A component preceded by its marker character, or nothing when absent. */
  function Marked(c: char, part: Option<string>): string {
    if part.Some? then [c] + part.value else []
  }

  /** Cutting `a` followed by a marked component at the marker gives both back. */
  lemma CutMarked(a: string, c: char, part: Option<string>)
    requires c !in a
    ensures CutAt(a + Marked(c, part), c) == (a, part)
  {
    if part.Some? {
      assert a + Marked(c, part) == a + [c] + part.value;
      CutAtFirst(a, part.value, c);
    } else {
      assert a + Marked(c, part) == a;
    }
  }
}
