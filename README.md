# nav_lynx link selection, modelled in Dafny

`nav_link_to` renders a navigation link. It marks the link "selected" when it
points at the page being shown. `NavLinkHelper::LinkGenerator` makes that
decision and picks the CSS classes:

- **Path normaliser** (`comparable_path_for`). It brings the request's full
  path and the link's URL into a comparable form under `:ignore_params`.
  Three cases: nothing, `:all` (strip the query) or an array of parameter
  names (drop those keys from the query).
- **Segment matcher** (`segment_for`, `segment_position`, `segments_match?`).
  It picks one `/`-separated component, either from a controller name
  (`:controller_segment`, counted from 1) or from a path (`:url_segment`, a
  raw index into `split('/')`), and compares the link side with the current
  side.
- **Selection and class resolver** (`selected?`, `html_options`,
  `link_classes`, `wrapper`, `wrapper_class`, `wrapper_classes`, `to_html`).
  It combines exact path equality with segment equality. It then gives the
  anchor's `class` and the optional wrapper element's classes from per-link
  options, falling back to the process-wide `NavLYNX` defaults.

The generator is assigned once and then only read, so the model is a set of
functions over datatypes:

- `ruby.dfy` (module `Ruby`): `nil` as `Option`, an exception as
  `Outcome.Raised`, `String#split` with its removal of trailing empty
  strings, `Array#[]` with negative indices, and interpolation of `nil`.
- `uri.dfy` (module `Uri`): the base/query/fragment split that `URI(path)`,
  `uri.query =` and `uri.to_s` rely on.
- `path_normalizer.dfy` (module `PathNormalizer`): `comparable_path_for`.
- `segment_matcher.dfy` (module `SegmentMatcher`): `segment_for`,
  `segment_position` and the comparison of `segments_match?`.
- `nav_link_helper.dfy` (module `NavLinkHelper`): the `LinkGenerator`
  datatype. Its member functions are the generator's methods.

The framework is passed in as values:

- `url_for` is a total function `UrlOptions -> string`.
- Route recognition is `string -> Option<string>`. `None` stands for a
  `RoutingError` or a route without a controller.
- The query codec (Rack's `parse_query`, `Hash#to_query`) is a pair of
  functions.
- The `NavLYNX` defaults are an immutable `Config` record.

A reader of the helper might expect behaviour that differs from what the
code does. The model follows the code:

- One might expect a link whose controller cannot be routed, under
  `:controller_segment`, simply not to match. In the code the controller is
  then `nil`, and `nil.split('/')` raises `NoMethodError`
  (app/helpers/nav_link_helper.rb:90). The model raises (`Outcome.Raised`),
  and `RaisesOnlyForUnroutableController` says exactly when.
- One might expect `url_segment: 1` on `/admin/posts/5` to give `"posts"`. It
  gives `"admin"`: index 0 of Ruby's `split` is the empty string before the
  leading `/` (`UrlSegmentExample`).
- One might expect an array policy that removes every parameter to leave no
  dangling `?`. The rebuilt query is always present: `uri.query = ""` still
  prints a `?` (lines 73-74, `ComparablePath`, `NamesPolicyShape`).
- One might expect `ignore_params: :all` to cut a path at its first `?`. The
  pattern `/\?.*/` stops at a newline, so `"a?b\nc"` becomes `"a\nc"`:
  the cut before the first `?` holds only for one-line paths
  (`StripQueryLines`, `StripQueryExample`, `StripQuerySingleLine`,
  `AllPolicyStrips`).
- This version of the helper has no `:use_params` policy and no `:and`/`:or`
  override conditions. The model has none either.
- The link-side segment reads the CURRENT path (line 85) and the current-side
  segment reads the LINK path (line 119). `link_classes` tests the raw
  `:wrapper` option, not the resolved wrapper (line 129). Both quirks are
  modelled (`PathSegment`, `CurrentSegment`, `UrlSegmentSelection`,
  `DefaultWrapperDoublesSelectedClass`).

## Model

| member | source | states |
|---|---|---|
| Ruby.Fields | app/helpers/nav_link_helper.rb:90-92 | The slash-separated fields on which `split('/')` is built: at least one, none containing the separator |
| Ruby.DropTrailingEmpty | app/helpers/nav_link_helper.rb:90-92 | The result is a prefix of the fields; its last element is non-empty; all fields it drops are empty |
| Ruby.Split | app/helpers/nav_link_helper.rb:90-92 | `split('/')` elements contain no `/` and never end with an empty string |
| Ruby.JoinFields | app/helpers/nav_link_helper.rb:90-92 | Joining the fields of a string with the separator gives the string back |
| Ruby.FieldsJoin | app/helpers/nav_link_helper.rb:90-92 | Splitting a join of separator-free fields gives the fields back (inverse of JoinFields) |
| Ruby.SplitEmpty | app/helpers/nav_link_helper.rb:90-92 | `split` yields `[]` exactly when the string consists only of separators (both directions) |
| Ruby.SplitLeadingSeparator | app/helpers/nav_link_helper.rb:92 | A leading `/` followed by any other character puts `""` at index 0 |
| Ruby.SplitElement | app/helpers/nav_link_helper.rb:90-92 | Every element `split` keeps is the field at the same index |
| Ruby.At | app/helpers/nav_link_helper.rb:90-92 | `Array#[]` gives an element exactly for indices from `-size` to `size - 1` (`nil` otherwise); a non-negative index gives the element at that position |
| Ruby.AtFromEnd | app/helpers/nav_link_helper.rb:90-92 | A negative index in range reads the same element as the index plus the size |
| Uri.CutAt | app/helpers/nav_link_helper.rb:71 | The part before the first `c` holds no `c`; the rest is absent exactly when `c` does not occur; the parts rebuild the string |
| Uri.CutAtFirst | app/helpers/nav_link_helper.rb:71 | When `a` holds no `c`, cutting `a + c + b` gives `a` and `b` |
| Uri.Parse | app/helpers/nav_link_helper.rb:71 | For a reference that is not opaque, `URI(path)` splits it at the first `#` and the first `?` before it; the base holds neither and the query no `#`; printing the parts gives the string back exactly (opaque references, scheme case and default ports are not modelled, see Left out) |
| Uri.ParseToString | app/helpers/nav_link_helper.rb:71-74 | `Uri.ToString` (`uri.to_s`) is a right inverse of `Parse`: printing a well-formed reference and parsing it again gives it back |
| Uri.SetQueryKeepsBase | app/helpers/nav_link_helper.rb:73-74 | After `uri.query = q` and `uri.to_s`, the reference read back has the same part before the query and a present query, whatever `q` holds |
| PathNormalizer.RestOfLineOn | app/helpers/nav_link_helper.rb:69 | What `.*` leaves after a `?` is a suffix of the input that is empty or starts with a newline; the part `.*` consumed holds no newline; on a single line nothing is left |
| PathNormalizer.StripQuery | app/helpers/nav_link_helper.rb:69 | After `gsub(/\?.*/, '')` no `?` is left, and the result is no longer than the path |
| PathNormalizer.Except | app/helpers/nav_link_helper.rb:72 | `except`: no listed key survives, every surviving pair was in the input, every unlisted pair survives |
| PathNormalizer.ExceptIdempotent | app/helpers/nav_link_helper.rb:72 | Removing the same keys twice is the same as once |
| PathNormalizer.ExceptAppend | app/helpers/nav_link_helper.rb:72 | `except` distributes over concatenation |
| PathNormalizer.StripQueryNoQuery | app/helpers/nav_link_helper.rb:69 | A path without `?` is left unchanged |
| PathNormalizer.RestOfLineSkip | app/helpers/nav_link_helper.rb:69 | After a `?` on a line followed by another, `.*` leaves that line's newline and everything after it |
| PathNormalizer.StripQueryFromMark | app/helpers/nav_link_helper.rb:69 | A line starting with `?` strips to nothing, and the lines after it keep their newline |
| PathNormalizer.StripQueryLines | app/helpers/nav_link_helper.rb:69 | Stripping works line by line: each line is stripped on its own and the newlines stay; with StripQuerySingleLine this fixes the result on every input |
| PathNormalizer.StripQueryExample | app/helpers/nav_link_helper.rb:69 | `"a?b\nc"` strips to `"a\nc"` |
| PathNormalizer.StripQuerySingleLine | app/helpers/nav_link_helper.rb:69 | On a path without newlines the result is the path cut just before its first `?` |
| PathNormalizer.ComparablePath | app/helpers/nav_link_helper.rb:66-78 | Under `:all` no `?` is left; under an Array the re-read result has the path's part before the query and a present query; any other policy returns the path unchanged |
| PathNormalizer.AllPolicyStrips | app/helpers/nav_link_helper.rb:68-69 | Under `:all` the result has no `?`; it equals the path when the path has no `?`; on one line it is the prefix before the first `?`; normalising twice is the same as once |
| PathNormalizer.NamesPolicyShape | app/helpers/nav_link_helper.rb:70-74 | Under an array policy, re-parsing the result gives the same base and fragment, and a query that is present and is the kept parameters serialised |
| PathNormalizer.NamesPolicyFilters | app/helpers/nav_link_helper.rb:70-74 | Under an array policy: no parameter of the result's query has the name of any listed Symbol or String, every unlisted parameter stays, nothing new appears, and the part before the query is unchanged |
| PathNormalizer.NamesPolicyIdempotent | app/helpers/nav_link_helper.rb:70-74 | Under an array policy, normalising twice is the same as once |
| PathNormalizer.ExceptNone | app/helpers/nav_link_helper.rb:72 | `except` of keys no parameter has returns the parameters unchanged |
| PathNormalizer.ExceptAllListed | app/helpers/nav_link_helper.rb:72 | `except` of keys that cover every parameter returns nothing |
| PathNormalizer.ListedParamsIgnored | app/helpers/nav_link_helper.rb:70-74 | Under an array policy, a path whose query only inserts parameters with listed names, anywhere in the query, normalises to the same path as the one without them |
| SegmentMatcher.SegmentPosition | app/helpers/nav_link_helper.rb:104-110 | A position exists exactly when either segment option is set |
| SegmentMatcher.SegmentFor | app/helpers/nav_link_helper.rb:88-94 | Raises exactly when `:controller_segment` is set and the controller is `nil`; is `nil` when neither option is set; a segment never contains `/` |
| SegmentMatcher.Compare | app/helpers/nav_link_helper.rb:80-82 | True iff the link side is a string equal to the current side; false when the link side is `nil`, even if the current side is `nil` too; raises iff an evaluated side raises |
| SegmentMatcher.ControllerSegmentPicks | app/helpers/nav_link_helper.rb:88-106 | `controller_segment = n` (n at least 1) gives field `n-1` of the controller name, or `nil` out of range, whatever the path |
| SegmentMatcher.ControllerSegmentZero | app/helpers/nav_link_helper.rb:104-106 | `controller_segment = 0` reads index -1: the last element of the split controller name |
| SegmentMatcher.UrlSegmentPicks | app/helpers/nav_link_helper.rb:91-92 | `url_segment = n` gives field `n` of the path, or `nil` out of range |
| SegmentMatcher.UrlSegmentZeroIsEmpty | app/helpers/nav_link_helper.rb:92 | `url_segment = 0` on an absolute path gives `""` |
| SegmentMatcher.ControllerSegmentFirst | app/helpers/nav_link_helper.rb:89-94 | `:controller_segment` takes precedence over `:url_segment` |
| SegmentMatcher.ControllerSegmentExample | app/helpers/nav_link_helper.rb:88-106 | `controller_segment: 2` on `admin/posts` gives `posts` |
| SegmentMatcher.UrlSegmentExample | app/helpers/nav_link_helper.rb:88-110 | `url_segment: 1` on `/admin/posts/5` gives `admin` |
| Ruby.JoinCons | app/helpers/nav_link_helper.rb:90-92 | Joining takes the first field, a separator, then the join of the rest |
| Ruby.FieldsAppend | app/helpers/nav_link_helper.rb:90-92 | Putting a separator-free string in front extends only the first field |
| Ruby.FieldsOfSeparators | app/helpers/nav_link_helper.rb:90-92 | A string of separators only has every field empty |
| Ruby.JoinOfEmpties | app/helpers/nav_link_helper.rb:90-92 | Joining empty fields gives separators only |
| NavLinkHelper.LinkGenerator.CurrentPath | app/helpers/nav_link_helper.rb:57-59 | The request's full path (query included), normalised: no `?` under `:all`, same part before the query under an Array, unchanged otherwise |
| NavLinkHelper.LinkGenerator.LinkPath | app/helpers/nav_link_helper.rb:61-64 | The URL `url_for` builds for the link, normalised in the same way |
| NavLinkHelper.LinkGenerator.PathsMatch | app/helpers/nav_link_helper.rb:53-55 | Without a policy: true iff the full request path equals the link's URL; under `:all`, for one-line paths: true iff both agree up to their first `?` |
| NavLinkHelper.LinkGenerator.PathController | app/helpers/nav_link_helper.rb:96-102 | A Hash's `:controller` is used as it is; otherwise the router's answer for the link's URL (`controller_for`, lines 112-116); `nil` exactly when there is no Hash controller and the router fails |
| NavLinkHelper.LinkGenerator.PathSegment | app/helpers/nav_link_helper.rb:84-86 | Under `:controller_segment = n`: raises iff the link's controller is `nil`, else element `n-1` of it; under `:url_segment = n` alone: element `n` of the CURRENT path; else `nil` |
| NavLinkHelper.LinkGenerator.CurrentSegment | app/helpers/nav_link_helper.rb:118-124 | Under `:controller_segment = n`: raises iff the router fails on `request.path` (the path without its query), else element `n-1` of that controller; under `:url_segment = n` alone: element `n` of the LINK path; else `nil` |
| NavLinkHelper.LinkGenerator.Selected | app/helpers/nav_link_helper.rb:49-55 | Selected iff the normalised paths are equal or the segments match; raises iff the paths differ and the segment comparison raises |
| NavLinkHelper.LinkGenerator.LinkClasses | app/helpers/nav_link_helper.rb:126-132 | Existing class + space + selected class; else the selected class when the raw `:wrapper` option is not set; else `nil` |
| NavLinkHelper.LinkGenerator.HtmlOptions | app/helpers/nav_link_helper.rb:45-47 | Unchanged when not selected; when selected only `:class` changes, to the link classes; raises exactly when selection does |
| NavLinkHelper.LinkGenerator.WrapperClasses | app/helpers/nav_link_helper.rb:154-160 | `"#{selected_class} #{wrapper_class}"` when selected, else the wrapper class |
| NavLinkHelper.LinkGenerator.ToHtml | app/helpers/nav_link_helper.rb:30-47 | The anchor carries the resolved html options; it is wrapped exactly when `wrapper` is non-nil, by that element with the wrapper classes |
| NavLinkHelper.NeverRaisesWithoutControllerSegment | app/helpers/nav_link_helper.rb:88-94 | Without `:controller_segment`, selection and rendering never raise |
| NavLinkHelper.RaisesOnlyForUnroutableController | app/helpers/nav_link_helper.rb:80-124 | Selection raises iff the paths differ, `:controller_segment` is set, and the link's controller, or (after a string link segment) the current one, is unroutable |
| NavLinkHelper.ControllerSegmentSelection | app/helpers/nav_link_helper.rb:80-124 | With `:controller_segment` the segments match iff both controllers resolve and their elements at `n-1` exist and agree |
| NavLinkHelper.UrlSegmentSelection | app/helpers/nav_link_helper.rb:80-120 | With only `:url_segment` the segments match iff element `n` of the current path exists and equals element `n` of the link path |
| NavLinkHelper.ExactMatchOnly | app/helpers/nav_link_helper.rb:49-55 | With no segment option only exact path equality decides |
| NavLinkHelper.HashControllerSkipsRouter | app/helpers/nav_link_helper.rb:96-116 | A Hash with `:controller` gives that controller, whatever the router does; any other link gets the router's answer for its `url_for` URL |
| NavLinkHelper.IgnoreAllDiscardsQuery | app/helpers/nav_link_helper.rb:57-69 | Under `:all`, replacing the query of a one-line request path changes neither the current path nor the verdict |
| NavLinkHelper.NotSelectedLeavesOptions | app/helpers/nav_link_helper.rb:30-47 | A link that is not selected keeps its html options, and its wrapper carries only the wrapper class |
| NavLinkHelper.SelectedClassFallback | app/helpers/nav_link_helper.rb:134-136 | The selected class is the option when given, and the `NavLYNX` default otherwise |
| NavLinkHelper.FalseDisablesDefault | app/helpers/nav_link_helper.rb:138-144 | `wrapper: false` gives `nil` and no wrapping whatever the default; a given wrapper wins; unset falls back to the default |
| NavLinkHelper.WrapperClassResolution | app/helpers/nav_link_helper.rb:146-152 | `wrapper_class: false` gives `nil` whatever the default; a given value wins; unset falls back to the default |
| NavLinkHelper.NilClassesInterpolateEmpty | app/helpers/nav_link_helper.rb:126-160 | A `nil` selected class interpolates as `""` (Ruby.ToS, lines 128, 156): a selected link's existing class gains a trailing space, and the wrapper's classes start with a space (a lone space without a wrapper class) |
| NavLinkHelper.OptionsOverrideDefaults | app/helpers/nav_link_helper.rb:134-152 | When all styling options are given per link, the `NavLYNX` defaults do not affect the output |
| NavLinkHelper.DefaultWrapperDoublesSelectedClass | app/helpers/nav_link_helper.rb:126-160 | A wrapper that comes from the default, on a selected link with no class of its own: both the anchor and the wrapper get the selected class |
| NavLinkHelper.GivenWrapperTakesSelectedClass | app/helpers/nav_link_helper.rb:126-160 | An explicit wrapper, on a selected link with no class of its own: the anchor gets no class, the wrapper gets the selected class |
| NavLinkHelper.SelectedWrapping | app/helpers/nav_link_helper.rb:30-34 | A selected link with a wrapper renders the anchor with the resolved html options inside that wrapper, whose classes are the selected class, a space and the wrapper class |
| NavLinkHelper.ControllerSegmentScenario | app/helpers/nav_link_helper.rb:49-124 | Current path `/posts/5`, a link to `{controller: "posts"}` with `controller_segment: 1`: selected although the paths differ |
| NavLinkHelper.WrapperScenario | app/helpers/nav_link_helper.rb:134-160 | Wrapper `li`, defaults `nav-item` and `active`, selected: the wrapper's classes are `active nav-item` |

Helpers without a row: `Ruby.Option.Or` and `Ruby.ToS` (`||` and
interpolation of `nil`, whose effect `SelectedClassFallback` and
`NilClassesInterpolateEmpty` state), `Uri.ToString` (the partner of
`Uri.Parse`), `LinkGenerator.SelectedClass` (stated by
`SelectedClassFallback`), `LinkGenerator.Wrapper`, `LinkGenerator.WrapperClass`
and `Resolve` (stated by `FalseDisablesDefault` and `WrapperClassResolution`),
`LinkGenerator.Segments`
and `LinkGenerator.SegmentsAgree` (`segments_match?`, stated by
`ControllerSegmentSelection` and `UrlSegmentSelection`), and
`PathNormalizer.StringForms`, `QueryParams` and `KeptParams`. `SplitPosts` and
`ActiveNavItem` are steps of the two scenario lemmas (a `split` of one
literal, and a string-literal identity); `StripQueryNewline`,
`StripQueryCons`, `EmptyLineBefore`, `ExampleLines` and `ExampleFirstLine`
are steps of the line-by-line stripping proofs. `controller_for`
(lines 112-116) and `current_controller` (lines 122-124) are the injected
router applied to the link's URL and to `request.path`; `PathController` and
`CurrentSegment` state them.

## Left out

- HTML generation: `link_to`, `content_tag`, `html_safe`, `capture`, and how
  `nav_link_to` sorts its arguments (lines 6-13, 36, 42). This is rendering by
  ActionView. `ToHtml` returns an abstract `Markup` record instead: title, url
  options, html attributes, and an optional wrapper element with its classes.
- `url_for` (lines 62, 100) and `Rails.application.routes.recognize_path`
  (line 113) are framework calls. They are parameters. Route recognition
  errors other than `RoutingError` are not modelled.
- Query encoding: percent-encoding, repeated keys becoming arrays,
  and `to_query`'s key sorting. These are library internals of `Rack::Utils`
  and ActiveSupport. The query is a list of key/value pairs, read and written
  by one abstract codec.
- Uri.Parse and PathNormalizer.ComparablePath: Ruby's `URI` lowercases the
  scheme and drops a default port when it prints a reference
  (`HTTP://example.com:80/a?x=1` prints as `http://example.com/a?x=1`). The
  model does not normalise either, so its exact round trip holds only for
  references without an upper-case scheme or a default port. That covers
  `request.fullpath` and the paths `url_for` builds from a Hash.
- Uri.Parse and PathNormalizer.ComparablePath: an opaque reference (a scheme
  followed by a path that does not start with `/`, such as `mailto:a@b?s=x`)
  keeps its `?...` inside the opaque part, so Ruby finds no query in it, and
  under an Array policy `uri.query =` (line 73) raises
  `URI::InvalidURIError`. The model treats every reference as hierarchical:
  it finds a query there and returns a rebuilt string instead of raising.
- `URI(path)` raising `URI::InvalidURIError` on characters that are not
  allowed in a URI reference is not modelled either; the model splits every
  reference into base, query and fragment.
- PathNormalizer.NamesPolicyFilters: holds for a codec that writes no `#`
  and reads back the same pairs it wrote, in any order. The codec is
  abstract, so that is stated as a precondition; `to_query` escapes `#` and
  sorts the keys, and `parse_query` reads the sorted pairs back.
- PathNormalizer.NamesPolicyIdempotent: holds for a codec that writes no `#`,
  reads back only pairs it wrote, and writes the re-read pairs as it wrote
  them. A key-sorting `to_query` meets this; the codec is abstract, so it is
  a precondition.
- The `NavLYNX` defaults are global configuration. Here they are an immutable
  `Config` record of strings or `nil`. A default of `false` is not modelled.
- Option values are typed: segment options are Integers, class and wrapper
  options are Strings, and a Hash's `:controller` is a String. Non-Integer
  segment options would raise in `-` or `[]`, and a Symbol `:controller`
  would raise `NoMethodError` at `controller.split('/')` (line 90). Those
  errors, and `:class` given under a String key, are not modelled.
- The generator's `controller` attribute is stored but never read by this
  logic, so the model has no such field.
- `selected?` runs twice in Ruby (from `html_options` and from
  `wrapper_classes`). Its inputs are fixed, so the model evaluates it as one
  value.
