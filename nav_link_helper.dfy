/** `NavLinkHelper::LinkGenerator`: whether a navigation link points at the
    current location, and which classes its anchor and its optional wrapper
    element carry. A generator is built once from its inputs and every method
    is a function of them, so it is a datatype with member functions here. */
module NavLinkHelper {
  import opened Ruby
  import Uri
  import opened PathNormalizer
  import opened SegmentMatcher

  /** The `url_options` a link is built from: a String, a Hash (of which only
      `:controller` is read here), or any other object `url_for` accepts. */
  datatype UrlOptions =
    | UrlString(url: string)
    | UrlHash(controller: Option<string>, params: seq<(string, string)>)
    | UrlObject(description: string)

  /** A `:wrapper` or `:wrapper_class` option: absent, explicitly `false`, or a value. */
  datatype Setting = Unset | False | Given(value: string)

  /** The per-link options. */
  datatype Options = Options(
    ignoreParams: IgnoreParams,
    controllerSegment: Option<int>,
    urlSegment: Option<int>,
    selectedClass: Option<string>,
    wrapper: Setting,
    wrapperClass: Setting)

  /** The `NavLYNX` process-wide defaults, fixed for the life of the process. */
  datatype Config = Config(selectedClass: Option<string>, wrapper: Option<string>, wrapperClass: Option<string>)

  /** The link's `html_options`: its `:class` and its other attributes. */
  datatype HtmlAttributes = HtmlAttributes(cls: Option<string>, others: seq<(string, string)>)

  /** `request.fullpath` (path and query) and `request.path` (path only). */
  datatype Request = Request(fullpath: string, path: string)

  /** The framework's services: `url_for`; route recognition, which is `None`
      where `recognize_path` raises `RoutingError` or names no controller; and
      the query codec. */
  datatype Framework = Framework(urlFor: UrlOptions -> string, recognize: string -> Option<string>, codec: QueryCodec)

  /** What `to_html` asks the view to render: `link_to(title, url_options,
      html_options)`, inside `content_tag(wrapper, ..., class: wrapper_classes)`
      when there is a wrapper. */
  datatype Anchor = Anchor(title: string, urlOptions: UrlOptions, html: HtmlAttributes)
  datatype Wrapping = Wrapping(element: string, classes: Option<string>)
  datatype Markup = Markup(anchor: Anchor, wrapping: Option<Wrapping>)

  /** An option that is `nil` when explicitly `false`, and otherwise the
      option or else its process-wide default. */
  function Resolve(s: Setting, default: Option<string>): Option<string> {
    match s
    case False => None
    case Given(v) => Some(v)
    case Unset => default
  }

  datatype LinkGenerator = LinkGenerator(
    request: Request,
    title: string,
    urlOptions: UrlOptions,
    options: Options,
    htmlOptions: HtmlAttributes,
    framework: Framework,
    config: Config)
  {
    /** `current_path`: the request's full path (query included), normalised. */
    function CurrentPath(): (r: string)
      ensures options.ignoreParams.All? ==> '?' !in r
      ensures options.ignoreParams.Names? ==> Uri.Parse(r).base == Uri.Parse(request.fullpath).base
      ensures !options.ignoreParams.All? && !options.ignoreParams.Names? ==> r == request.fullpath
    {
      ComparablePath(request.fullpath, options.ignoreParams, framework.codec)
    }

    /** `link_path`: the link's URL as `url_for` builds it, normalised. */
    function LinkPath(): (r: string)
      ensures options.ignoreParams.All? ==> '?' !in r
      ensures options.ignoreParams.Names? ==> Uri.Parse(r).base == Uri.Parse(framework.urlFor(urlOptions)).base
      ensures !options.ignoreParams.All? && !options.ignoreParams.Names? ==> r == framework.urlFor(urlOptions)
    {
      ComparablePath(framework.urlFor(urlOptions), options.ignoreParams, framework.codec)
    }

    /** `paths_match?`: without a policy the full paths are compared as they
        are; under `:all`, for one-line paths, only what precedes the first `?`. */
    function PathsMatch(): (r: bool)
      ensures !options.ignoreParams.All? && !options.ignoreParams.Names? ==>
        (r <==> request.fullpath == framework.urlFor(urlOptions))
      ensures options.ignoreParams.All? && '\n' !in request.fullpath && '\n' !in framework.urlFor(urlOptions) ==>
        (r <==> Uri.CutAt(request.fullpath, '?').0 == Uri.CutAt(framework.urlFor(urlOptions), '?').0)
    {
      AllPolicyStrips(request.fullpath, framework.codec);
      AllPolicyStrips(framework.urlFor(urlOptions), framework.codec);
      CurrentPath() == LinkPath()
    }

    /** `path_controller`: the Hash's `:controller` when it has one, otherwise
        `controller_for(url_for(url_options))`, the controller of the route the
        link's URL is recognised as; `nil` only when the router fails. */
    function PathController(): (r: Option<string>)
      ensures urlOptions.UrlHash? && urlOptions.controller.Some? ==> r == urlOptions.controller
      ensures r.None? <==>
        !(urlOptions.UrlHash? && urlOptions.controller.Some?) && framework.recognize(framework.urlFor(urlOptions)).None?
    {
      if urlOptions.UrlHash? && urlOptions.controller.Some? then urlOptions.controller
      else framework.recognize(framework.urlFor(urlOptions))
    }

    function Segments(): SegmentOptions {
      SegmentOptions(options.controllerSegment, options.urlSegment)
    }

    /** `path_segment`: the link's controller, but the CURRENT path. */
    function PathSegment(): (r: Outcome<Option<string>>)
      ensures options.controllerSegment.Some? ==> (r.Raised? <==> PathController().None?)
      ensures options.controllerSegment.Some? && PathController().Some? ==>
        r == Ok(At(Split(PathController().value, '/'), options.controllerSegment.value - 1))
      ensures options.controllerSegment.None? && options.urlSegment.Some? ==>
        r == Ok(At(Split(CurrentPath(), '/'), options.urlSegment.value))
      ensures options.controllerSegment.None? && options.urlSegment.None? ==> r == Ok(None)
    {
      SegmentFor(Segments(), PathController(), CurrentPath())
    }

    /** `current_segment`: the current controller, which is
        `controller_for(request.path)` (the path without its query), but the
        LINK's path. */
    function CurrentSegment(): (r: Outcome<Option<string>>)
      ensures options.controllerSegment.Some? ==> (r.Raised? <==> framework.recognize(request.path).None?)
      ensures options.controllerSegment.Some? && framework.recognize(request.path).Some? ==>
        r == Ok(At(Split(framework.recognize(request.path).value, '/'), options.controllerSegment.value - 1))
      ensures options.controllerSegment.None? && options.urlSegment.Some? ==>
        r == Ok(At(Split(LinkPath(), '/'), options.urlSegment.value))
      ensures options.controllerSegment.None? && options.urlSegment.None? ==> r == Ok(None)
    {
      SegmentFor(Segments(), framework.recognize(request.path), LinkPath())
    }

    /** `segments_match?` */
    function SegmentsAgree(): Outcome<bool> {
      SegmentMatcher.Compare(PathSegment(), CurrentSegment())
    }

    /** `selected?`: the paths match or, failing that, the segments do; the
        segments are only looked at (and can only raise) when the paths differ. */
    function Selected(): (r: Outcome<bool>)
      ensures r == Ok(true) <==> PathsMatch() || SegmentsAgree() == Ok(true)
      ensures r.Raised? <==> !PathsMatch() && SegmentsAgree().Raised?
    {
      if PathsMatch() then Ok(true) else SegmentsAgree()
    }

    /** `selected_class` */
    function SelectedClass(): Option<string> {
      options.selectedClass.Or(config.selectedClass)
    }

    /** `wrapper` */
    function Wrapper(): Option<string> {
      Resolve(options.wrapper, config.wrapper)
    }

    /** `wrapper_class` */
    function WrapperClass(): Option<string> {
      Resolve(options.wrapperClass, config.wrapperClass)
    }

    /** `link_classes`: the existing class with the selected class appended;
        without an existing class, the selected class alone unless the RAW
        `:wrapper` option is set (a wrapper that comes from the default does
        not count). */
    function LinkClasses(): (r: Option<string>)
      ensures htmlOptions.cls.Some? ==> r == Some(htmlOptions.cls.value + " " + ToS(SelectedClass()))
      ensures htmlOptions.cls.None? && options.wrapper.Given? ==> r == None
      ensures htmlOptions.cls.None? && !options.wrapper.Given? ==> r == SelectedClass()
    {
      if htmlOptions.cls.Some? then Some(htmlOptions.cls.value + " " + ToS(SelectedClass()))
      else if !options.wrapper.Given? then SelectedClass()
      else None
    }

    /** `html_options`: unchanged when the link is not selected; when it is,
        only `:class` is replaced, by the link classes. */
    function HtmlOptions(): (r: Outcome<HtmlAttributes>)
      ensures r.Raised? <==> Selected().Raised?
      ensures Selected() == Ok(false) ==> r == Ok(htmlOptions)
      ensures Selected() == Ok(true) ==> r.Ok? && r.value.others == htmlOptions.others && r.value.cls == LinkClasses()
    {
      match Selected()
      case Raised(e) => Raised(e)
      case Ok(selected) => if selected then Ok(htmlOptions.(cls := LinkClasses())) else Ok(htmlOptions)
    }

    /** `wrapper_classes`: the selected class, a space and the wrapper class
        when selected (either may interpolate as empty); the wrapper class
        alone otherwise. */
    function WrapperClasses(): (r: Outcome<Option<string>>)
      ensures r.Raised? <==> Selected().Raised?
      ensures Selected() == Ok(false) ==> r == Ok(WrapperClass())
      ensures Selected() == Ok(true) ==> r.Ok? && r.value.Some? && r.value.value == ToS(SelectedClass()) + " " + ToS(WrapperClass())
    {
      match Selected()
      case Raised(e) => Raised(e)
      case Ok(selected) =>
        if selected then Ok(Some(ToS(SelectedClass()) + " " + ToS(WrapperClass()))) else Ok(WrapperClass())
    }

    /** `to_html`: the anchor, wrapped exactly when a wrapper resolves. */
    function ToHtml(): (r: Outcome<Markup>)
      ensures r.Raised? <==> Selected().Raised?
      ensures r.Ok? ==> r.value.anchor == Anchor(title, urlOptions, HtmlOptions().value)
      ensures r.Ok? ==> (r.value.wrapping.Some? <==> Wrapper().Some?)
      ensures r.Ok? && r.value.wrapping.Some? ==>
        r.value.wrapping.value == Wrapping(Wrapper().value, WrapperClasses().value)
    {
      match HtmlOptions()
      case Raised(e) => Raised(e)
      case Ok(html) =>
        var anchor := Anchor(title, urlOptions, html);
        if Wrapper().None? then Ok(Markup(anchor, None))
        else
          match WrapperClasses()
          case Raised(e) => Raised(e)
          case Ok(classes) => Ok(Markup(anchor, Some(Wrapping(Wrapper().value, classes))))
    }
  }

  /** Without `:controller_segment` nothing calls `split` on `nil`, so
      selection and rendering never raise. */
  lemma NeverRaisesWithoutControllerSegment(g: LinkGenerator)
    requires g.options.controllerSegment.None?
    ensures g.Selected().Ok? && g.ToHtml().Ok?
  {
  }

  /** Selection raises exactly when the paths differ, `:controller_segment` is
      set, and a controller it needs is unroutable: the link's, or (once the
      link's segment is a string) the current request's. */
  lemma RaisesOnlyForUnroutableController(g: LinkGenerator)
    ensures g.Selected().Raised? <==>
      && !g.PathsMatch()
      && g.options.controllerSegment.Some?
      && (g.PathController().None? || (g.PathSegment().Ok? && g.PathSegment().value.Some? && g.framework.recognize(g.request.path).None?))
  {
  }

  /** With `:controller_segment = n` the segments match exactly when both
      controllers resolve and their elements at index `n - 1` exist and agree. */
  lemma ControllerSegmentSelection(g: LinkGenerator)
    requires g.options.controllerSegment.Some?
    ensures var n := g.options.controllerSegment.value;
      g.SegmentsAgree() == Ok(true) <==>
        && g.PathController().Some? && g.framework.recognize(g.request.path).Some?
        && At(Split(g.PathController().value, '/'), n - 1).Some?
        && At(Split(g.PathController().value, '/'), n - 1) == At(Split(g.framework.recognize(g.request.path).value, '/'), n - 1)
  {
  }

  /** With only `:url_segment = n` the segments match exactly when element `n`
      of the current path exists and equals element `n` of the link path
      (the link side reads the current path, the current side the link path). */
  lemma UrlSegmentSelection(g: LinkGenerator)
    requires g.options.controllerSegment.None? && g.options.urlSegment.Some?
    ensures var n := g.options.urlSegment.value;
      g.SegmentsAgree() == Ok(At(Split(g.CurrentPath(), '/'), n).Some?
                               && At(Split(g.CurrentPath(), '/'), n) == At(Split(g.LinkPath(), '/'), n))
  {
  }

  /** With neither segment option only the exact comparison decides. */
  lemma ExactMatchOnly(g: LinkGenerator)
    requires g.options.controllerSegment.None? && g.options.urlSegment.None?
    ensures g.Selected() == Ok(g.PathsMatch())
  {
  }

  /** A Hash with `:controller` names the link's controller without asking
      the router; any other link's controller is what the router recognises
      its URL as. */
  lemma HashControllerSkipsRouter(g: LinkGenerator, recognize: string -> Option<string>)
    ensures g.urlOptions.UrlHash? && g.urlOptions.controller.Some? ==>
      g.PathController() == g.urlOptions.controller
      && g.(framework := g.framework.(recognize := recognize)).PathController() == g.PathController()
    ensures !(g.urlOptions.UrlHash? && g.urlOptions.controller.Some?) ==>
      g.PathController() == g.framework.recognize(g.framework.urlFor(g.urlOptions))
  {
  }

  /** Under `ignore_params: :all`, replacing the query of a one-line request
      path changes neither the current path nor the verdict. */
  lemma IgnoreAllDiscardsQuery(g: LinkGenerator, query: string)
    requires g.options.ignoreParams == All
    requires '\n' !in g.request.fullpath && '\n' !in query
    ensures var h := g.(request := g.request.(fullpath := Uri.CutAt(g.request.fullpath, '?').0 + "?" + query));
      h.CurrentPath() == g.CurrentPath() && h.Selected() == g.Selected()
  {
    var base := Uri.CutAt(g.request.fullpath, '?').0;
    var p := base + "?" + query;
    AllPolicyStrips(g.request.fullpath, g.framework.codec);
    assert '\n' !in base;
    assert '\n' !in p;
    AllPolicyStrips(p, g.framework.codec);
    Uri.CutAtFirst(base, query, '?');
  }

  /** Not selected: the html options are untouched and the wrapper carries the
      wrapper class alone. */
  lemma NotSelectedLeavesOptions(g: LinkGenerator)
    requires g.Selected() == Ok(false)
    ensures g.ToHtml() == Ok(Markup(
      Anchor(g.title, g.urlOptions, g.htmlOptions),
      if g.Wrapper().None? then None else Some(Wrapping(g.Wrapper().value, g.WrapperClass()))))
  {
  }

  /** An explicit `false` disables the wrapper whatever the default says, so
      nothing is wrapped; an explicit value overrides the default; without
      the option the default applies. */
  lemma FalseDisablesDefault(g: LinkGenerator)
    ensures g.options.wrapper == False ==> g.Wrapper() == None && (g.ToHtml().Ok? ==> g.ToHtml().value.wrapping == None)
    ensures g.options.wrapper.Given? ==> g.Wrapper() == Some(g.options.wrapper.value)
    ensures g.options.wrapper == Unset ==> g.Wrapper() == g.config.wrapper
  {
  }

  /** The wrapper class resolves like the wrapper: `false` disables it, a
      value overrides the default, no option falls back to it. */
  lemma WrapperClassResolution(g: LinkGenerator)
    ensures g.options.wrapperClass == False ==> g.WrapperClass() == None
    ensures g.options.wrapperClass.Given? ==> g.WrapperClass() == Some(g.options.wrapperClass.value)
    ensures g.options.wrapperClass == Unset ==> g.WrapperClass() == g.config.wrapperClass
  {
  }

  /** The selected class is the option when it is given and the default
      otherwise. */
  lemma SelectedClassFallback(g: LinkGenerator)
    ensures g.options.selectedClass.Some? ==> g.SelectedClass() == g.options.selectedClass
    ensures g.options.selectedClass.None? ==> g.SelectedClass() == g.config.selectedClass
  {
  }

  /** A `nil` selected class interpolates as the empty string: a selected
      link's existing class gains a trailing space, and its wrapper's classes
      start with a space (and are a lone space without a wrapper class). */
  lemma NilClassesInterpolateEmpty(g: LinkGenerator)
    requires g.Selected() == Ok(true) && g.SelectedClass().None?
    ensures g.htmlOptions.cls.Some? ==> g.HtmlOptions() == Ok(g.htmlOptions.(cls := Some(g.htmlOptions.cls.value + " ")))
    ensures g.htmlOptions.cls.None? ==> g.HtmlOptions() == Ok(g.htmlOptions.(cls := None))
    ensures g.WrapperClasses() == Ok(Some(" " + ToS(g.WrapperClass())))
    ensures g.WrapperClass().None? ==> g.WrapperClasses() == Ok(Some(" "))
  {
    assert g.HtmlOptions() == Ok(g.htmlOptions.(cls := g.LinkClasses()));
    assert ToS(g.SelectedClass()) == "";
    if g.htmlOptions.cls.Some? {
      assert g.htmlOptions.cls.value + " " + "" == g.htmlOptions.cls.value + " ";
    }
    assert g.WrapperClasses() == Ok(Some("" + " " + ToS(g.WrapperClass())));
    assert "" + " " + ToS(g.WrapperClass()) == " " + ToS(g.WrapperClass());
    if g.WrapperClass().None? {
      assert " " + "" == " ";
    }
  }

  /** When every styling option is given per call, the process-wide defaults
      do not affect the output. */
  lemma OptionsOverrideDefaults(g: LinkGenerator, config: Config)
    requires g.options.selectedClass.Some? && !g.options.wrapper.Unset? && !g.options.wrapperClass.Unset?
    ensures g.(config := config).ToHtml() == g.ToHtml()
  {
  }

  /** With the wrapper coming from the default and no class of its own, a
      selected link gets the selected class on the anchor AND on the wrapper,
      because `link_classes` tests the raw `:wrapper` option. */
  lemma DefaultWrapperDoublesSelectedClass(g: LinkGenerator)
    requires g.options.wrapper == Unset && g.config.wrapper.Some?
    requires g.htmlOptions.cls.None? && g.SelectedClass().Some?
    requires g.Selected() == Ok(true)
    ensures g.ToHtml().Ok?
    ensures g.ToHtml().value.anchor.html.cls == g.SelectedClass()
    ensures g.ToHtml().value.wrapping == Some(Wrapping(g.config.wrapper.value,
      Some(g.SelectedClass().value + " " + ToS(g.WrapperClass()))))
  {
  }

  /** An explicit wrapper and no class of its own: a selected anchor gets no
      class, the wrapper carries the selected class. */
  lemma GivenWrapperTakesSelectedClass(g: LinkGenerator)
    requires g.options.wrapper.Given? && g.htmlOptions.cls.None?
    requires g.Selected() == Ok(true)
    ensures g.ToHtml().Ok? && g.ToHtml().value.anchor.html.cls == None
    ensures g.ToHtml().value.wrapping == Some(Wrapping(g.options.wrapper.value,
      Some(ToS(g.SelectedClass()) + " " + ToS(g.WrapperClass()))))
  {
  }

  /** Current path `/posts/5`, a link to the posts controller given as a Hash,
      `controller_segment: 1`, and a router that maps `/posts/5` to `posts`:
      the link is selected although the paths differ. */
  lemma ControllerSegmentScenario(g: LinkGenerator)
    requires g.request == Request("/posts/5", "/posts/5")
    requires g.urlOptions.UrlHash? && g.urlOptions.controller == Some("posts")
    requires g.options.controllerSegment == Some(1)
    requires g.framework.recognize("/posts/5") == Some("posts")
    ensures g.Selected() == Ok(true)
  {
    assert g.PathController() == Some("posts");
    assert g.framework.recognize(g.request.path) == Some("posts");
    SplitPosts();
    assert g.PathSegment() == Ok(Some("posts"));
    assert g.CurrentSegment() == Ok(Some("posts"));
  }

  /** `"posts".split('/')` is `["posts"]`. */
  lemma SplitPosts()
    ensures Split("posts", '/') == ["posts"]
  {
    FieldsJoin(["posts"], '/');
  }

  /** Wrapper `li` and the defaults `nav-item` and `active`: a selected link's
      wrapper is `<li class="active nav-item">`. */
  lemma WrapperScenario(g: LinkGenerator)
    requires g.options.wrapper == Given("li") && g.options.wrapperClass == Unset && g.options.selectedClass.None?
    requires g.config.wrapperClass == Some("nav-item") && g.config.selectedClass == Some("active")
    requires g.Selected() == Ok(true)
    ensures g.ToHtml().Ok? && g.ToHtml().value.wrapping == Some(Wrapping("li", Some("active nav-item")))
  {
    assert g.Wrapper() == Some("li");
    assert ToS(g.SelectedClass()) == "active" && ToS(g.WrapperClass()) == "nav-item";
    SelectedWrapping(g);
    ActiveNavItem();
  }

  /** A selected link with a wrapper: the wrapper carries the selected class,
      a space and the wrapper class. */
  lemma SelectedWrapping(g: LinkGenerator)
    requires g.Selected() == Ok(true) && g.Wrapper().Some?
    ensures g.ToHtml() == Ok(Markup(Anchor(g.title, g.urlOptions, g.HtmlOptions().value),
      Some(Wrapping(g.Wrapper().value, Some(ToS(g.SelectedClass()) + " " + ToS(g.WrapperClass()))))))
  {
  }

  lemma ActiveNavItem()
    ensures "active" + " " + "nav-item" == "active nav-item"
  {
  }
}
