/** `segment_for`, `segment_position` and the comparison in `segments_match?`:
    one `/`-separated component, picked by position from a controller name
    (`:controller_segment`, counted from 1) or from a path (`:url_segment`, a
    raw index into `split('/')`). */
module SegmentMatcher {
  import opened Ruby

  /** The `:controller_segment` and `:url_segment` options; `None` stands for
      `nil` or `false`, any Integer (0 included) is truthy. */
  datatype SegmentOptions = SegmentOptions(controllerSegment: Option<int>, urlSegment: Option<int>)

  /** `segment_position`: the index handed to `Array#[]`. */
  function SegmentPosition(o: SegmentOptions): (r: Option<int>)
    ensures r.Some? <==> o.controllerSegment.Some? || o.urlSegment.Some?
  {
    if o.controllerSegment.Some? then Some(o.controllerSegment.value - 1)
    else if o.urlSegment.Some? then o.urlSegment
    else None
  }

  /** `segment_for(controller, path)`. Calling `split` on a `nil` controller
      raises `NoMethodError`. */
  function SegmentFor(o: SegmentOptions, controller: Option<string>, path: string): (r: Outcome<Option<string>>)
    ensures r.Raised? <==> o.controllerSegment.Some? && controller.None?
    ensures o.controllerSegment.None? && o.urlSegment.None? ==> r == Ok(None)
    ensures r.Ok? && r.value.Some? ==> '/' !in r.value.value
  {
    if o.controllerSegment.Some? then
      if controller.None? then Raised(NoMethodOnNil("split"))
      else Ok(At(Split(controller.value, '/'), SegmentPosition(o).value))
    else if o.urlSegment.Some? then Ok(At(Split(path, '/'), SegmentPosition(o).value))
    else Ok(None)
  }

  /** `path_segment && path_segment == current_segment`: a `nil` link-side
      segment never matches (not even a `nil` current-side one), and the
      current side is only evaluated when the link side is a string. */
  function Compare(linkSide: Outcome<Option<string>>, currentSide: Outcome<Option<string>>): (r: Outcome<bool>)
    ensures r == Ok(true) <==> linkSide.Ok? && linkSide.value.Some? && currentSide == linkSide
    ensures r.Raised? <==> linkSide.Raised? || (linkSide.Ok? && linkSide.value.Some? && currentSide.Raised?)
    ensures linkSide == Ok(None) ==> r == Ok(false)
  {
    match linkSide
    case Raised(e) => Raised(e)
    case Ok(None) => Ok(false)
    case Ok(Some(s)) =>
      match currentSide
      case Raised(e) => Raised(e)
      case Ok(c) => Ok(c == Some(s))
  }

  /** `:controller_segment = n` with `n >= 1` picks field `n - 1` of the
      controller name, or `nil` past the last non-empty field, whatever the
      path and `:url_segment` are. */
  lemma ControllerSegmentPicks(o: SegmentOptions, controller: string, path: string)
    requires o.controllerSegment.Some? && o.controllerSegment.value >= 1
    ensures var n := o.controllerSegment.value;
      SegmentFor(o, Some(controller), path)
      == if n <= |Split(controller, '/')| then Ok(Some(Fields(controller, '/')[n - 1])) else Ok(None)
  {
  }

  /** `:controller_segment = 0` reads index -1, the last element of the split
      controller name. */
  lemma ControllerSegmentZero(o: SegmentOptions, controller: string, path: string)
    requires o.controllerSegment == Some(0)
    ensures var parts := Split(controller, '/');
      SegmentFor(o, Some(controller), path) == if parts == [] then Ok(None) else Ok(Some(parts[|parts| - 1]))
  {
  }

  /** `:url_segment = n` (without `:controller_segment`) picks element `n` of
      `path.split('/')`, `nil` when out of range; `n` counts the empty string
      that a leading `/` produces. */
  lemma UrlSegmentPicks(o: SegmentOptions, controller: Option<string>, path: string)
    requires o.controllerSegment.None? && o.urlSegment.Some? && o.urlSegment.value >= 0
    ensures var n := o.urlSegment.value;
      SegmentFor(o, controller, path)
      == if n < |Split(path, '/')| then Ok(Some(Fields(path, '/')[n])) else Ok(None)
  {
  }

  /** `:url_segment = 0` on an absolute path with any component gives `""`. */
  lemma UrlSegmentZeroIsEmpty(o: SegmentOptions, controller: Option<string>, path: string, k: nat)
    requires o == SegmentOptions(None, Some(0))
    requires |path| > 0 && path[0] == '/' && k < |path| && path[k] != '/'
    ensures SegmentFor(o, controller, path) == Ok(Some(""))
  {
    SplitLeadingSeparator(path, '/', k);
  }

  /** `:controller_segment` takes precedence over `:url_segment`. */
  lemma ControllerSegmentFirst(o: SegmentOptions, controller: Option<string>, path: string)
    requires o.controllerSegment.Some?
    ensures SegmentFor(o, controller, path) == SegmentFor(o.(urlSegment := None), controller, path)
  {
  }

  /** `controller_segment: 2` on `"admin/posts"` gives `"posts"`. */
  lemma ControllerSegmentExample(path: string)
    ensures SegmentFor(SegmentOptions(Some(2), None), Some("admin/posts"), path) == Ok(Some("posts"))
  {
    var c := ["admin", "posts"];
    JoinCons("admin", ["posts"], '/');
    assert "admin" + ['/'] + "posts" == "admin/posts";
    FieldsJoin(c, '/');
  }

  /** `url_segment: 1` on `"/admin/posts/5"` gives `"admin"`: index 0 is the
      empty string before the leading `/`. */
  lemma UrlSegmentExample(controller: Option<string>)
    ensures SegmentFor(SegmentOptions(None, Some(1)), controller, "/admin/posts/5") == Ok(Some("admin"))
  {
    var p := ["", "admin", "posts", "5"];
    JoinCons("posts", ["5"], '/');
    assert p[2..] == ["posts"] + ["5"];
    assert p[1..] == ["admin"] + p[2..];
    JoinCons("admin", p[2..], '/');
    assert p == [""] + p[1..];
    JoinCons("", p[1..], '/');
    assert "" + ['/'] + ("admin" + ['/'] + ("posts" + ['/'] + "5")) == "/admin/posts/5";
    FieldsJoin(p, '/');
  }
}
