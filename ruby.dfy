/** The parts of Ruby's value semantics the link generator relies on: `nil`,
    exceptions that propagate, `String#split` with a one-character separator,
    `Array#[]` with negative indices, and string interpolation of `nil`. */
module Ruby {

  /** A value that may be `nil` (options whose value is `false` read as `nil`
      wherever the code only tests truthiness). */
  datatype Option<+T> = None | Some(value: T) {

    /** `x || fallback`, for an `x` that is either `nil` or truthy. */
    function Or(fallback: Option<T>): Option<T> {
      if Some? then this else fallback
    }

    function GetOr(default: T): T {
      if Some? then value else default
    }
  }

  /** The exceptions the modelled code can raise. */
  datatype Error = NoMethodOnNil(name: string)

  /** The result of evaluating a Ruby expression: its value, or the exception
      it raised, which propagates to the caller unchanged. */
  datatype Outcome<+T> = Ok(value: T) | Raised(error: Error)

  /** `"#{x}"` for a string or `nil`: `nil` interpolates as the empty string. */
  function ToS(x: Option<string>): string {
    x.GetOr("")
  }

  /** Every field of `s` between occurrences of `sep`, empty fields included:
      the split before Ruby removes trailing empty strings. */
  function Fields(s: string, sep: char): (r: seq<string>)
    ensures |r| >= 1
    ensures forall i :: 0 <= i < |r| ==> sep !in r[i]
    decreases |s|
  {
    if s == [] then [[]]
    else
      var rest := Fields(s[1..], sep);
      if s[0] == sep then [[]] + rest
      else [[s[0]] + rest[0]] + rest[1..]
  }

  /** The fields glued back together with `sep` between them. */
  function Join(fs: seq<string>, sep: char): string
    decreases |fs|
  {
    if fs == [] then []
    else if |fs| == 1 then fs[0]
    else fs[0] + [sep] + Join(fs[1..], sep)
  }

  /** `fs` without its trailing empty strings. */
  function DropTrailingEmpty(fs: seq<string>): (r: seq<string>)
    ensures |r| <= |fs| && r == fs[..|r|]
    ensures r == [] || r[|r| - 1] != []
    ensures forall i :: |r| <= i < |fs| ==> fs[i] == []
    decreases |fs|
  {
    if fs != [] && fs[|fs| - 1] == [] then DropTrailingEmpty(fs[..|fs| - 1]) else fs
  }

  /** `s.split(sep)` for a one-character, non-space separator and no limit:
      the fields of `s`, with the trailing empty ones removed. */
  function Split(s: string, sep: char): (r: seq<string>)
    ensures forall i :: 0 <= i < |r| ==> sep !in r[i]
    ensures r == [] || r[|r| - 1] != []
  {
    DropTrailingEmpty(Fields(s, sep))
  }

  /** `a[i]` on a Ruby Array: a negative index counts from the end, and an
      index outside the array gives `nil`. */
  function At<T>(a: seq<T>, i: int): (r: Option<T>)
    ensures r.Some? <==> -|a| <= i < |a|
    ensures 0 <= i < |a| ==> r == Some(a[i])
  {
    if 0 <= i < |a| then Some(a[i])
    else if -|a| <= i < 0 then Some(a[|a| + i])
    else None
  }

  /** A negative index reads the same element as the index plus the size. */
  lemma AtFromEnd<T>(a: seq<T>, i: int)
    requires -|a| <= i < 0
    ensures At(a, i) == At(a, i + |a|) && At(a, i).Some?
  {
  }

  /** Joining the fields of `s` gives `s` back. */
  lemma {:induction false} JoinFields(s: string, sep: char)
    ensures Join(Fields(s, sep), sep) == s
    decreases |s|
  {
    if s != [] {
      var rest := Fields(s[1..], sep);
      JoinFields(s[1..], sep);
      if s[0] == sep {
        assert ([[]] + rest)[1..] == rest;
      } else {
        var fs := [[s[0]] + rest[0]] + rest[1..];
        if |rest| > 1 {
          assert fs[1..] == rest[1..];
          assert Join(rest, sep) == rest[0] + [sep] + Join(rest[1..], sep);
          assert Join(fs, sep) == [s[0]] + rest[0] + [sep] + Join(rest[1..], sep);
        }
        assert s == [s[0]] + s[1..];
      }
    }
  }

  /** `Join` takes one field at a time from the front. */
  lemma JoinCons(a: string, rest: seq<string>, sep: char)
    requires |rest| >= 1
    ensures Join([a] + rest, sep) == a + [sep] + Join(rest, sep)
  {
  }

  /** Prepending a separator-free string extends the first field. */
  lemma {:induction false} FieldsAppend(a: string, t: string, sep: char)
    requires sep !in a
    ensures Fields(a + t, sep) == [a + Fields(t, sep)[0]] + Fields(t, sep)[1..]
    decreases |a|
  {
    var f := Fields(t, sep);
    if a == [] {
      assert a + t == t;
      assert a + f[0] == f[0];
      assert [f[0]] + f[1..] == f;
    } else {
      assert (a + t)[1..] == a[1..] + t;
      FieldsAppend(a[1..], t, sep);
      assert [a[0]] + (a[1..] + Fields(t, sep)[0]) == a + Fields(t, sep)[0];
    }
  }

  /** Splitting the join of separator-free fields gives the fields back:
      `Fields` and `Join` are inverse to each other. */
  lemma {:induction false} FieldsJoin(fs: seq<string>, sep: char)
    requires |fs| >= 1
    requires forall i :: 0 <= i < |fs| ==> sep !in fs[i]
    ensures Fields(Join(fs, sep), sep) == fs
    decreases |fs|
  {
    if |fs| == 1 {
      FieldsAppend(fs[0], [], sep);
      assert fs[0] + [] == fs[0];
      assert fs == [fs[0]];
    } else {
      var j := Join(fs[1..], sep);
      FieldsJoin(fs[1..], sep);
      assert Join(fs, sep) == fs[0] + ([sep] + j);
      FieldsAppend(fs[0], [sep] + j, sep);
      assert ([sep] + j)[1..] == j;
      assert Fields([sep] + j, sep) == [[]] + fs[1..];
      assert fs[0] + [] == fs[0];
      assert fs == [fs[0]] + fs[1..];
    }
  }

  /** A string of separators only has every field empty. */
  lemma {:induction false} FieldsOfSeparators(s: string, sep: char)
    requires forall k :: 0 <= k < |s| ==> s[k] == sep
    ensures forall i :: 0 <= i < |Fields(s, sep)| ==> Fields(s, sep)[i] == []
    decreases |s|
  {
    if s != [] {
      FieldsOfSeparators(s[1..], sep);
    }
  }

  /** Fields that are all empty join to a string of separators only. */
  lemma {:induction false} JoinOfEmpties(fs: seq<string>, sep: char)
    requires forall i :: 0 <= i < |fs| ==> fs[i] == []
    ensures forall k :: 0 <= k < |Join(fs, sep)| ==> Join(fs, sep)[k] == sep
    decreases |fs|
  {
    if |fs| > 1 {
      JoinOfEmpties(fs[1..], sep);
    }
  }

  /** `split` yields no element at all exactly when `s` holds nothing but
      separators (the empty string included). */
  lemma SplitEmpty(s: string, sep: char)
    ensures Split(s, sep) == [] <==> forall k :: 0 <= k < |s| ==> s[k] == sep
  {
    var fs := Fields(s, sep);
    if forall k :: 0 <= k < |s| ==> s[k] == sep {
      FieldsOfSeparators(s, sep);
    } else if Split(s, sep) == [] {
      JoinOfEmpties(fs, sep);
      JoinFields(s, sep);
      assert false;
    }
  }

  /** Ruby's `split` puts an empty string at index 0 when `s` starts with the
      separator and holds anything else. */
  lemma SplitLeadingSeparator(s: string, sep: char, k: nat)
    requires |s| > 0 && s[0] == sep
    requires k < |s| && s[k] != sep
    ensures |Split(s, sep)| >= 2 && Split(s, sep)[0] == []
  {
    SplitEmpty(s, sep);
    var fs := Fields(s, sep);
    var r := Split(s, sep);
    assert r[0] == fs[0] == [];
    assert r != [[]];
  }

  /** An element that `split` keeps is the field of `s` at the same index. */
  lemma SplitElement(s: string, sep: char, i: nat)
    requires i < |Split(s, sep)|
    ensures i < |Fields(s, sep)| && Split(s, sep)[i] == Fields(s, sep)[i]
  {
  }
}
