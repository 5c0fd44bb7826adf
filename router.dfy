/**
 * The `Routable` derive macro (router/src/lib.rs): how a route template such as
 * "/hello_world/(dynamic)" is cut into segments, how each enum variant's
 * `#[route("...")]` attribute is found, how the variants of the enum are
 * collected, and the names the macro derives for each variant's module. The
 * syn/quote values are abstracted to plain strings and sequences.
 */
module Router {
  import opened Wrappers
  import Text

  /** One `/`-separated piece of a route template. */
  datatype RouteSegment = Static(text: string) | Dynamic(ident: string)

  /** The segment a single template token stands for: `(name)` is a parameter, anything else literal text. */
  function Classify(token: string): (seg: RouteSegment)
    ensures seg.Dynamic? <==> |token| >= 2 && token[0] == '(' && token[|token| - 1] == ')'
    ensures seg.Dynamic? ==> token == "(" + seg.ident + ")"
    ensures seg.Static? ==> seg.text == token
  {
    if |token| > 0 && token[0] == '(' && token[|token| - 1] == ')' then
      Dynamic(token[1..|token| - 1])
    else
      Static(token)
  }

  /** A parenthesised name is a parameter of that name. */
  lemma ClassifyParameter(name: string)
    ensures Classify("(" + name + ")") == Dynamic(name)
  {
    var token := "(" + name + ")";
    assert token[1..|token| - 1] == name;
  }

  /** A token that does not open with a parenthesis is literal text. */
  lemma ClassifyLiteral(text: string)
    requires text == [] || text[0] != '('
    ensures Classify(text) == Static(text)
  {
  }

  /** The template text a segment was read from. */
  function Render(seg: RouteSegment): (token: string)
    ensures Classify(token) == seg || (seg.Static? && |token| >= 2 && token[0] == '(' && token[|token| - 1] == ')')
  {
    match seg
    case Static(text) => text
    case Dynamic(ident) => "(" + ident + ")"
  }

  /** The template text of a whole segment list: the rendered segments joined with `/`. */
  function RenderRoute(segs: seq<RouteSegment>): (route: string)
    requires |segs| >= 1
  {
    Text.Join(seq(|segs|, i requires 0 <= i < |segs| => Render(segs[i])), '/')
  }

  /**
   * The segments of a template: one per `/`-separated token, in order, with no
   * token dropped, so there is one segment more than there are slashes, and
   * rendering the segments reproduces the template exactly.
   */
  function Segments(route: string): (segs: seq<RouteSegment>)
    ensures |segs| == multiset(route)['/'] + 1
    ensures RenderRoute(segs) == route
  {
    var tokens := Text.Split(route, '/');
    var segs := ClassifyAll(tokens);
    Text.SplitCount(route, '/');
    Text.JoinSplit(route, '/');
    assert seq(|segs|, i requires 0 <= i < |segs| => Render(segs[i])) == tokens;
    segs
  }

  function ClassifyAll(tokens: seq<string>): (segs: seq<RouteSegment>)
    ensures |segs| == |tokens|
    ensures forall i :: 0 <= i < |tokens| ==> segs[i] == Classify(tokens[i])
  {
    if tokens == [] then [] else [Classify(tokens[0])] + ClassifyAll(tokens[1..])
  }

  /**
   * A leading slash is not stripped: it produces a first, empty literal segment,
   * and the rest are the segments of the text after it.
   */
  lemma LeadingSlash(route: string)
    requires route != [] && route[0] == '/'
    ensures Segments(route) == [Static("")] + Segments(route[1..])
  {
    assert Text.Split(route, '/') == [[]] + Text.Split(route[1..], '/');
  }

  /** `parse_route_segments`: walks the `/`-separated tokens and pushes one segment per token. */
  method ParseRouteSegments(route: string) returns (segs: seq<RouteSegment>)
    ensures segs == Segments(route)
    ensures |segs| == multiset(route)['/'] + 1
    ensures forall i :: 0 <= i < |segs| ==> segs[i] == Classify(Text.Split(route, '/')[i])
    ensures RenderRoute(segs) == route
  {
    var tokens := Text.Split(route, '/');
    segs := [];
    for i := 0 to |tokens|
      invariant |segs| == i
      invariant forall j :: 0 <= j < i ==> segs[j] == Classify(tokens[j])
    {
      var token := tokens[i];
      if |token| > 0 && token[0] == '(' && token[|token| - 1] == ')' {
        segs := segs + [Dynamic(token[1..|token| - 1])];
      } else {
        segs := segs + [Static(token)];
      }
    }
  }

  /** An attribute on an enum variant: its path, and its arguments when they are exactly one string literal. */
  datatype Attribute = Attribute(path: string, args: Option<string>)

  datatype Variant = Variant(ident: string, attrs: seq<Attribute>)

  /** The body of the item the derive is applied to; only an enum is accepted. */
  datatype Data = EnumData(variants: seq<Variant>) | StructData | UnionData

  datatype DeriveInput = DeriveInput(ident: string, data: Data)

  /** One variant's route: its name, its template text, and the template's segments. */
  datatype Route = Route(routeName: string, route: string, routeSegments: seq<RouteSegment>)

  datatype RouteEnum = RouteEnum(routeName: string, routes: seq<Route>)

  datatype MacroError =
    | NotAnEnum(item: string)
    | MissingRouteAttribute(variant: string)
    | RouteArgumentNotString(variant: string)

  /** The text of each compile error the macro reports. */
  function Message(e: MacroError): (text: string)
  {
    match e
    case NotAnEnum(_) => "Routable can only be derived for enums"
    case MissingRouteAttribute(_) => "Routable variants must have a #[route(...)] attribute"
    case RouteArgumentNotString(_) => "expected string literal"
  }

  predicate IsRouteAttribute(a: Attribute)
  {
    a.path == "route"
  }

  /** `i` is the position of the first `route` attribute. */
  predicate FirstRouteAttribute(attrs: seq<Attribute>, i: int)
  {
    0 <= i < |attrs| && IsRouteAttribute(attrs[i])
    && forall j :: 0 <= j < i ==> !IsRouteAttribute(attrs[j])
  }

  /** The iterator `find` over a variant's attributes for the one named `route`. */
  function FindRouteAttribute(attrs: seq<Attribute>): (r: Option<nat>)
    ensures r.None? <==> forall j :: 0 <= j < |attrs| ==> !IsRouteAttribute(attrs[j])
    ensures r.Some? ==> FirstRouteAttribute(attrs, r.value)
  {
    if attrs == [] then None
    else if IsRouteAttribute(attrs[0]) then Some(0)
    else
      match FindRouteAttribute(attrs[1..])
      case None => None
      case Some(k) => Some(k + 1)
  }

  /** `Route::parse`: the first `route` attribute's string gives the template and its segments. */
  function ParseRoute(v: Variant): (r: Result<Route, MacroError>)
    ensures r == Failure(MissingRouteAttribute(v.ident))
            <==> forall j :: 0 <= j < |v.attrs| ==> !IsRouteAttribute(v.attrs[j])
    ensures r.Failure? ==>
              (Message(r.error) == "Routable variants must have a #[route(...)] attribute"
               <==> forall j :: 0 <= j < |v.attrs| ==> !IsRouteAttribute(v.attrs[j]))
    ensures r.Success? <==> exists i :: FirstRouteAttribute(v.attrs, i) && v.attrs[i].args.Some?
    ensures r.Success? ==>
              && r.value.routeName == v.ident
              && r.value.routeSegments == Segments(r.value.route)
              && exists i :: FirstRouteAttribute(v.attrs, i) && v.attrs[i].args == Some(r.value.route)
  {
    match FindRouteAttribute(v.attrs)
    case None => Failure(MissingRouteAttribute(v.ident))
    case Some(i) =>
      match v.attrs[i].args
      case None => Failure(RouteArgumentNotString(v.ident))
      case Some(route) => Success(Route(v.ident, route, Segments(route)))
  }

  /**
   * `RouteEnum::parse`: rejects anything but an enum; otherwise parses the
   * variants in order and stops at the first one that fails.
   */
  method ParseRouteEnum(input: DeriveInput) returns (r: Result<RouteEnum, MacroError>)
    ensures !input.data.EnumData? ==> r == Failure(NotAnEnum(input.ident))
    ensures r.Failure? ==> (Message(r.error) == "Routable can only be derived for enums" <==> !input.data.EnumData?)
    ensures input.data.EnumData? ==>
              (r.Success? <==> forall i :: 0 <= i < |input.data.variants| ==> ParseRoute(input.data.variants[i]).Success?)
    ensures r.Success? ==>
              && input.data.EnumData?
              && r.value.routeName == input.ident
              && |r.value.routes| == |input.data.variants|
              && forall i :: 0 <= i < |r.value.routes| ==> ParseRoute(input.data.variants[i]) == Success(r.value.routes[i])
    ensures r.Failure? && input.data.EnumData? ==>
              exists k :: 0 <= k < |input.data.variants|
                && (forall j :: 0 <= j < k ==> ParseRoute(input.data.variants[j]).Success?)
                && ParseRoute(input.data.variants[k]) == Failure(r.error)
  {
    if !input.data.EnumData? {
      return Failure(NotAnEnum(input.ident));
    }
    var variants := input.data.variants;
    var routes: seq<Route> := [];
    for i := 0 to |variants|
      invariant |routes| == i
      invariant forall j :: 0 <= j < i ==> ParseRoute(variants[j]) == Success(routes[j])
    {
      var route := ParseRoute(variants[i]);
      if route.Failure? {
        return Failure(route.error);
      }
      routes := routes + [route.value];
    }
    return Success(RouteEnum(input.ident, routes));
  }

  /**
   * The file a variant's module is loaded from: the template without its first
   * character, plus ".rs". Rust slices at byte 1, which panics when the template
   * is empty or starts with a character that takes more than one byte in UTF-8;
   * those cases give None.
   */
  function ModuleFilePath(route: string): (p: Option<string>)
    ensures p.None? <==> route == [] || route[0] as int >= 0x80
    ensures p.Some? ==> [route[0]] + p.value == route + ".rs"
  {
    if route == [] || route[0] as int >= 0x80 then None
    else Some(route[1..] + ".rs")
  }

  /**
   * For a template with a leading slash the module file mirrors the route: the
   * file path without ".rs" has exactly the segments that follow the leading empty one.
   */
  lemma ModulePathMirrorsSegments(route: string)
    requires route != [] && route[0] == '/'
    ensures ModuleFilePath(route).Some?
    ensures var p := ModuleFilePath(route).value;
            |p| >= 3 && p[|p| - 3..] == ".rs" && Segments(route) == [Static("")] + Segments(p[..|p| - 3])
  {
    LeadingSlash(route);
    var p := ModuleFilePath(route).value;
    assert p[..|p| - 3] == route[1..];
  }

  /** The name of the props struct of a variant's component. */
  function PropsName(variant: string): (name: string)
    ensures |name| == |variant| + 5 && name[..|variant|] == variant && name[|variant|..] == "Props"
  {
    variant + "Props"
  }

  /** Distinct variants get distinct props names, so the generated `pub use` items never clash. */
  lemma PropsNameInjective(a: string, b: string)
    requires PropsName(a) == PropsName(b)
    ensures a == b
  {
    assert a == PropsName(a)[..|a|];
  }

  /** What `Route::to_tokens` emits for one variant, as strings. */
  datatype RouteModule = RouteModule(filePath: string, modName: string, propsName: string)

  /** `Route::to_tokens`: None where the macro would panic on the template. */
  function RouteModuleOf(r: Route): (m: Option<RouteModule>)
    ensures m.None? <==> ModuleFilePath(r.route).None?
    ensures m.Some? ==> m.value.modName == r.routeName && m.value.propsName == r.routeName + "Props"
                        && [r.route[0]] + m.value.filePath == r.route + ".rs"
  {
    match ModuleFilePath(r.route)
    case None => None
    case Some(path) => Some(RouteModule(path, r.routeName, PropsName(r.routeName)))
  }
}
