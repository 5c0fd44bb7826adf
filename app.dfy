/**
 * The application's `Route` enum (src/main.rs): its two variants and their
 * templates, how a path is parsed into a variant and how a variant is written
 * back as a path, and how the error listing every failed attempt is displayed.
 *
 * Parsing cuts the path at every `/` exactly as the macro cuts a template, drops
 * one trailing empty token (left by a trailing slash), and tries the templates in
 * declaration order: a template fits when it has as many segments as there are
 * tokens, each literal segment equals its token and each parameter's token is
 * non-empty. The first template that fits and whose parameter decodes wins.
 */
module App {
  import opened Wrappers
  import Text
  import Decimal
  import Router

  /** The two variants; in the source each one's single field is named `dynamic`. */
  datatype Route = Route1(string) | Route2(Decimal.u32)

  const ROUTE1_TEMPLATE: string := "/(dynamic)"
  const ROUTE2_TEMPLATE: string := "/hello_world/(dynamic)"

  /** The compiled templates, in declaration order (`TemplateSegments` proves them the segments of the templates). */
  const ROUTE1_SEGMENTS: seq<Router.RouteSegment> := [Router.Static(""), Router.Dynamic("dynamic")]
  const ROUTE2_SEGMENTS: seq<Router.RouteSegment> :=
    [Router.Static(""), Router.Static("hello_world"), Router.Dynamic("dynamic")]

  /** The enum as the derive macro receives it. */
  const DECLARED: Router.DeriveInput :=
    Router.DeriveInput("Route", Router.EnumData([
      Router.Variant("Route1", [Router.Attribute("route", Some(ROUTE1_TEMPLATE))]),
      Router.Variant("Route2", [Router.Attribute("route", Some(ROUTE2_TEMPLATE))])
    ]))

  /** The segments the parser uses for the two templates, classified token by token. */
  lemma ClassifiedTemplates()
    ensures Router.ClassifyAll(["", "(dynamic)"]) == ROUTE1_SEGMENTS
    ensures Router.ClassifyAll(["", "hello_world", "(dynamic)"]) == ROUTE2_SEGMENTS
  {
    Router.ClassifyLiteral("");
    Router.ClassifyLiteral("hello_world");
    Router.ClassifyParameter("dynamic");
    assert "(dynamic)" == "(" + "dynamic" + ")";
  }

  /** The tokens of Route1's template. */
  lemma Route1TemplateTokens()
    ensures Router.Segments(ROUTE1_TEMPLATE) == Router.ClassifyAll(["", "(dynamic)"])
  {
    assert Text.Join(["", "(dynamic)"], '/') == ROUTE1_TEMPLATE;
    Text.SplitJoin(["", "(dynamic)"], '/');
  }

  /** The tokens of Route2's template. */
  lemma Route2TemplateTokens()
    ensures Router.Segments(ROUTE2_TEMPLATE) == Router.ClassifyAll(["", "hello_world", "(dynamic)"])
  {
    assert Text.Join(["", "hello_world", "(dynamic)"], '/') == ROUTE2_TEMPLATE;
    Text.SplitJoin(["", "hello_world", "(dynamic)"], '/');
  }

  /** The macro's segmenter compiles the two templates to the segment lists the parser uses. */
  lemma TemplateSegments()
    ensures Router.Segments(ROUTE1_TEMPLATE) == ROUTE1_SEGMENTS
    ensures Router.Segments(ROUTE2_TEMPLATE) == ROUTE2_SEGMENTS
  {
    ClassifiedTemplates();
    Route1TemplateTokens();
    Route2TemplateTokens();
  }

  /** The derive reads each declared variant's route from its `route` attribute. */
  lemma DeclaredRoutes()
    ensures DECLARED.data.EnumData? && |DECLARED.data.variants| == 2
    ensures Router.ParseRoute(DECLARED.data.variants[0])
            == Success(Router.Route("Route1", ROUTE1_TEMPLATE, ROUTE1_SEGMENTS))
    ensures Router.ParseRoute(DECLARED.data.variants[1])
            == Success(Router.Route("Route2", ROUTE2_TEMPLATE, ROUTE2_SEGMENTS))
  {
    TemplateSegments();
    SingleRouteAttribute("Route1", ROUTE1_TEMPLATE);
    SingleRouteAttribute("Route2", ROUTE2_TEMPLATE);
  }

  /** A variant whose one attribute is `#[route(template)]` gets that template. */
  lemma SingleRouteAttribute(name: string, template: string)
    ensures Router.ParseRoute(Router.Variant(name, [Router.Attribute("route", Some(template))]))
            == Success(Router.Route(name, template, Router.Segments(template)))
  {
    assert Router.FindRouteAttribute([Router.Attribute("route", Some(template))]) == Some(0);
  }

  /** The module file, module name and props name the macro emits for each declared variant. */
  lemma DeclaredModules()
    ensures Router.RouteModuleOf(Router.Route("Route1", ROUTE1_TEMPLATE, ROUTE1_SEGMENTS))
            == Some(Router.RouteModule("(dynamic).rs", "Route1", "Route1Props"))
    ensures Router.RouteModuleOf(Router.Route("Route2", ROUTE2_TEMPLATE, ROUTE2_SEGMENTS))
            == Some(Router.RouteModule("hello_world/(dynamic).rs", "Route2", "Route2Props"))
  {
    assert ROUTE1_TEMPLATE == ['/'] + "(dynamic)";
    assert ROUTE2_TEMPLATE == ['/'] + "hello_world/(dynamic)";
    SlashRouteModule("Route1", "(dynamic)", ROUTE1_SEGMENTS);
    SlashRouteModule("Route2", "hello_world/(dynamic)", ROUTE2_SEGMENTS);
    assert "(dynamic)" + ".rs" == "(dynamic).rs";
    assert "hello_world/(dynamic)" + ".rs" == "hello_world/(dynamic).rs";
    assert "Route1" + "Props" == "Route1Props";
    assert "Route2" + "Props" == "Route2Props";
  }

  /** The module of a route written with a leading slash is the rest of the route plus ".rs". */
  lemma SlashRouteModule(name: string, rest: string, segs: seq<Router.RouteSegment>)
    ensures Router.RouteModuleOf(Router.Route(name, ['/'] + rest, segs))
            == Some(Router.RouteModule(rest + ".rs", name, name + "Props"))
  {
    assert (['/'] + rest)[1..] == rest;
  }

  /**
   * A path's tokens: cut at every `/`, then one trailing empty token (from a
   * trailing slash) dropped. Joined back with `/`, they give the path, less its
   * final slash when it has one.
   */
  function PathTokens(path: string): (tokens: seq<string>)
    ensures |tokens| >= 1
    ensures Text.Free(tokens, '/')
    ensures if path != [] && path[|path| - 1] == '/' then Text.Join(tokens, '/') + "/" == path
            else Text.Join(tokens, '/') == path
  {
    var t := Text.Split(path, '/');
    Text.EndsWithSeparator(path, '/');
    Text.JoinSplit(path, '/');
    if |t| > 1 && t[|t| - 1] == [] then
      Text.JoinSplit(path[..|path| - 1], '/');
      assert path[..|path| - 1] + "/" == path;
      assert t[..|t| - 1] == Text.Split(path[..|path| - 1], '/');
      t[..|t| - 1]
    else
      t
  }

  /** Structural match of a compiled template against path tokens. */
  predicate Fits(segs: seq<Router.RouteSegment>, tokens: seq<string>)
  {
    && |segs| == |tokens|
    && forall i :: 0 <= i < |segs| ==>
         match segs[i]
         case Static(text) => tokens[i] == text
         case Dynamic(_) => tokens[i] != []
  }

  /** A template whose only parameter is its last segment, as both declared templates are. */
  predicate LastSegmentParameter(segs: seq<Router.RouteSegment>)
  {
    && |segs| >= 1
    && segs[|segs| - 1].Dynamic?
    && forall i :: 0 <= i < |segs| - 1 ==> segs[i].Static?
  }

  /** Tokens fit such a template exactly when they are the template filled with their non-empty last token. */
  lemma FitsIsFilled(segs: seq<Router.RouteSegment>, tokens: seq<string>)
    requires LastSegmentParameter(segs) && |tokens| >= 1
    ensures Fits(segs, tokens) <==> tokens[|tokens| - 1] != [] && tokens == Fill(segs, tokens[|tokens| - 1])
  {
  }

  /** Both declared templates carry their one parameter last. */
  lemma DeclaredTemplatesEndInParameter()
    ensures LastSegmentParameter(ROUTE1_SEGMENTS) && LastSegmentParameter(ROUTE2_SEGMENTS)
  {
  }

  /** Why one template did not produce a route. */
  datatype ParseAttempt =
    | Mismatch(variant: string)
    | DecodeFailed(variant: string, field: string, raw: string)

  datatype RouteParseError<E> = RouteParseError(attemptedRoutes: seq<E>)

  /**
   * `Route::from_str`. Route1 is tried first; its `String` field accepts any
   * token, so only a mismatch can make it fail. Route2 is tried next; its `u32`
   * field must decode. On failure the error lists both attempts in order.
   */
  function Parse(path: string): (r: Result<Route, RouteParseError<ParseAttempt>>)
    ensures var t := PathTokens(path);
            && (r.Success? && r.value.Route1? <==> Fits(ROUTE1_SEGMENTS, t))
            && (r.Success? && r.value.Route2? <==>
                  !Fits(ROUTE1_SEGMENTS, t) && Fits(ROUTE2_SEGMENTS, t) && Decimal.ParseU32(t[|t| - 1]).Some?)
            && (r.Success? ==>
                  match r.value
                  case Route1(d) => d == t[|t| - 1]
                  case Route2(n) => Decimal.ParseU32(t[|t| - 1]) == Some(n))
    ensures r.Failure? ==> |r.error.attemptedRoutes| == 2 && r.error.attemptedRoutes[0] == Mismatch("Route1")
    ensures r.Failure? ==>
              var t := PathTokens(path);
              r.error.attemptedRoutes[1]
              == if Fits(ROUTE2_SEGMENTS, t) then DecodeFailed("Route2", "dynamic", t[|t| - 1]) else Mismatch("Route2")
  {
    // The `dynamic` parameter is the last segment of both templates.
    var t := PathTokens(path);
    var raw := t[|t| - 1];
    if Fits(ROUTE1_SEGMENTS, t) then
      Success(Route1(raw))
    else if !Fits(ROUTE2_SEGMENTS, t) then
      Failure(RouteParseError([Mismatch("Route1"), Mismatch("Route2")]))
    else
      match Decimal.ParseU32(raw)
      case Some(n) => Success(Route2(n))
      case None => Failure(RouteParseError([Mismatch("Route1"), DecodeFailed("Route2", "dynamic", raw)]))
  }

  /** The path tokens of a template with `value` put in every parameter slot. */
  function Fill(segs: seq<Router.RouteSegment>, value: string): (tokens: seq<string>)
    ensures |tokens| == |segs|
  {
    seq(|segs|, i requires 0 <= i < |segs| =>
      match segs[i]
      case Static(text) => text
      case Dynamic(_) => value)
  }

  /**
   * `Route`'s `Display`: the variant's template with its field's text in the
   * parameter slot, so Route1 is written as a slash and its string, and Route2
   * as "/hello_world/" and its number.
   */
  function Display(r: Route): (path: string)
    ensures match r
            case Route1(d) => path == "/" + d
            case Route2(n) => path == "/hello_world/" + Decimal.FormatU32(n)
  {
    match r
    case Route1(d) =>
      assert Fill(ROUTE1_SEGMENTS, d) == ["", d];
      Text.JoinCons("", [d], '/');
      Text.Join(Fill(ROUTE1_SEGMENTS, d), '/')
    case Route2(n) =>
      var s := Decimal.FormatU32(n);
      assert Fill(ROUTE2_SEGMENTS, s) == ["", "hello_world", s];
      Text.JoinCons("hello_world", [s], '/');
      Text.JoinCons("", ["hello_world", s], '/');
      Text.Join(Fill(ROUTE2_SEGMENTS, s), '/')
  }

  /** `Route1("hello")` is written "/hello" (`display_works`). */
  lemma DisplayHello()
    ensures Display(Route1("hello")) == "/hello"
  {
  }

  /** `Route2(1234)` is written "/hello_world/1234" (`display_works`). */
  lemma DisplayNumber()
    ensures Display(Route2(1234)) == "/hello_world/1234"
  {
    assert Decimal.FormatNat(1) == "1";
    assert Decimal.FormatNat(12) == "12";
    assert Decimal.FormatNat(123) == "123";
    assert Decimal.FormatNat(1234) == "1234";
  }

  /** `Route1("hello_world")` is written "/hello_world" (`display_works`). */
  lemma DisplayHelloWorld()
    ensures Display(Route1("hello_world")) == "/hello_world"
  {
  }

  /** A value Display can write so that Parse reads it back: Route1's string must be one non-empty token. */
  predicate Displayable(r: Route)
  {
    match r
    case Route1(d) => d != [] && '/' !in d
    case Route2(_) => true
  }

  /** The tokens of a displayed route are the filled template (no trailing token is dropped). */
  lemma DisplayTokens(segs: seq<Router.RouteSegment>, value: string)
    requires segs == ROUTE1_SEGMENTS || segs == ROUTE2_SEGMENTS
    requires value != [] && '/' !in value
    ensures PathTokens(Text.Join(Fill(segs, value), '/')) == Fill(segs, value)
  {
    var f := Fill(segs, value);
    assert Text.Free(f, '/');
    Text.SplitJoin(f, '/');
  }

  /** Parsing what Display writes gives the route back. */
  lemma ParseDisplay(r: Route)
    requires Displayable(r)
    ensures Parse(Display(r)) == Success(r)
  {
    match r
    case Route1(d) =>
      DisplayTokens(ROUTE1_SEGMENTS, d);
    case Route2(n) =>
      var s := Decimal.FormatU32(n);
      DisplayTokens(ROUTE2_SEGMENTS, s);
      assert !Fits(ROUTE1_SEGMENTS, PathTokens(Display(r)));
  }

  /** Every route Parse produces is one Display can write back and Parse reads again. */
  lemma ParsedIsDisplayable(path: string)
    requires Parse(path).Success?
    ensures Displayable(Parse(path).value)
    ensures Parse(Display(Parse(path).value)) == Parse(path)
  {
    var t := PathTokens(path);
    var r := Parse(path).value;
    if r.Route1? {
      assert Fits(ROUTE1_SEGMENTS, t);
      assert '/' !in t[1];
    }
    ParseDisplay(r);
  }

  /**
   * A path Parse accepts is the displayed route, possibly followed by one slash;
   * for Route2 this holds when its number is written without leading zeros.
   */
  lemma ParsedPathIsDisplay(path: string)
    requires Parse(path).Success?
    requires var t := PathTokens(path); Parse(path).value.Route2? ==> Decimal.Canonical(t[|t| - 1])
    ensures path == Display(Parse(path).value) || path == Display(Parse(path).value) + "/"
  {
    var split := Text.Split(path, '/');
    var t := PathTokens(path);
    var r := Parse(path).value;
    Text.JoinSplit(path, '/');
    if |split| > 1 && split[|split| - 1] == [] {
      assert split == t + [[]];
      Text.JoinSnoc(t, [], '/');
    }
    match r
    case Route1(d) =>
      assert Fill(ROUTE1_SEGMENTS, d) == t;
    case Route2(n) =>
      Decimal.FormatParse(t[2]);
      assert Fill(ROUTE2_SEGMENTS, Decimal.FormatU32(n)) == t;
  }

  /** One trailing slash changes nothing: "/p" and "/p/" parse alike. */
  lemma TrailingSlashIgnored(path: string, slashed: string)
    requires path == [] || path[|path| - 1] != '/'
    requires slashed == path + "/"
    ensures Parse(slashed) == Parse(path)
  {
    Text.SplitTrailing(path, '/');
    var t := Text.Split(path, '/');
    assert Text.Split(path + "/", '/') == t + [[]];
    assert (t + [[]])[..|t|] == t;
    if path != [] {
      Text.SplitLastNonEmpty(path, '/');
    }
    assert PathTokens(path + "/") == PathTokens(path);
  }

  /** "/hello" reads as Route1 holding "hello" (`from_string_works`). */
  lemma ParseHello()
    ensures Parse("/hello") == Success(Route1("hello"))
  {
    DisplayHello();
    ParseDisplay(Route1("hello"));
  }

  /** "/hello/" reads as Route1 holding "hello" too (`from_string_works`). */
  lemma ParseHelloTrailingSlash()
    ensures Parse("/hello/") == Success(Route1("hello"))
  {
    ParseHello();
    TrailingSlashIgnored("/hello", "/hello/");
  }

  /** "/hello_world/1234" reads as Route2 holding 1234 (`from_string_works`). */
  lemma ParseNumber()
    ensures Parse("/hello_world/1234") == Success(Route2(1234))
  {
    DisplayNumber();
    ParseDisplay(Route2(1234));
  }

  /** "/hello_world/1234/" reads as Route2 holding 1234 too (`from_string_works`). */
  lemma ParseNumberTrailingSlash()
    ensures Parse("/hello_world/1234/") == Success(Route2(1234))
  {
    ParseNumber();
    TrailingSlashIgnored("/hello_world/1234", "/hello_world/1234/");
  }

  /**
   * "/hello_world" reads as Route1 holding "hello_world": the two-segment
   * template is not matched by a prefix of the path (`from_string_works`).
   */
  lemma ParseExactCount()
    ensures Parse("/hello_world") == Success(Route1("hello_world"))
  {
    DisplayHelloWorld();
    ParseDisplay(Route1("hello_world"));
  }

  /**
   * "/hello_world/-1" is rejected: it has too many segments for Route1, and "-1"
   * is not a `u32`, so both attempts are reported, in order (`from_string_works`).
   */
  lemma ParseNegative()
    ensures Parse("/hello_world/-1")
            == Failure(RouteParseError([Mismatch("Route1"), DecodeFailed("Route2", "dynamic", "-1")]))
  {
    var raw := "-1";
    assert !Decimal.IsDigit(raw[0]);
    DecodeFailureReported(raw);
    assert "/hello_world/" + raw == "/hello_world/-1";
  }

  /**
   * A path that fits Route2's template but whose last token is not a `u32` is
   * rejected, with Route2's attempt reporting the token it could not decode.
   */
  lemma DecodeFailureReported(raw: string)
    requires raw != [] && '/' !in raw && Decimal.ParseU32(raw).None?
    ensures Parse("/hello_world/" + raw)
            == Failure(RouteParseError([Mismatch("Route1"), DecodeFailed("Route2", "dynamic", raw)]))
  {
    var parts := ["", "hello_world", raw];
    Text.JoinCons("hello_world", [raw], '/');
    Text.JoinCons("", ["hello_world", raw], '/');
    assert Text.Join(parts, '/') == "/hello_world/" + raw;
    assert Text.Free(parts, '/');
    Text.SplitJoin(parts, '/');
  }

  const ERROR_PREFIX: string := "Route did not match: "

  /** Each message followed by a newline, in order. */
  function ErrorLines(messages: seq<string>): (text: string)
  {
    if messages == [] then []
    else ErrorLines(messages[..|messages| - 1]) + messages[|messages| - 1] + "\n"
  }

  /**
   * `RouteParseError`'s `Display`, each attempted route shown with `show`: the
   * prefix, then one line per attempted route.
   */
  function ErrorText<E>(err: RouteParseError<E>, show: E -> string): (text: string)
    ensures ERROR_PREFIX <= text
    ensures (forall i :: 0 <= i < |err.attemptedRoutes| ==> '\n' !in show(err.attemptedRoutes[i]))
            ==> multiset(text)['\n'] == |err.attemptedRoutes|
  {
    var lines := Shown(err.attemptedRoutes, show);
    PrefixFreeOfNewline();
    PrefixedLines(ERROR_PREFIX, lines);
    ERROR_PREFIX + ErrorLines(lines)
  }

  lemma PrefixFreeOfNewline()
    ensures '\n' !in ERROR_PREFIX
  {
  }

  /** Lines after a prefix without newlines: the prefix is kept, and the newlines are those of the lines. */
  lemma PrefixedLines(prefix: string, lines: seq<string>)
    requires '\n' !in prefix
    ensures prefix <= prefix + ErrorLines(lines)
    ensures (forall i :: 0 <= i < |lines| ==> '\n' !in lines[i])
            ==> multiset(prefix + ErrorLines(lines))['\n'] == |lines|
  {
    ErrorLinesCount(lines);
    assert multiset(prefix + ErrorLines(lines)) == multiset(prefix) + multiset(ErrorLines(lines));
  }

  /** Each item's text, in order. */
  function Shown<E>(items: seq<E>, show: E -> string): (texts: seq<string>)
    ensures |texts| == |items|
  {
    seq(|items|, i requires 0 <= i < |items| => show(items[i]))
  }

  /** The lines of two message lists are the lines of the first, then those of the second. */
  lemma {:induction false} ErrorLinesAppend(a: seq<string>, b: seq<string>)
    ensures ErrorLines(a + b) == ErrorLines(a) + ErrorLines(b)
  {
    if b == [] {
      assert a + b == a;
    } else {
      var init := b[..|b| - 1];
      ErrorLinesAppend(a, init);
      assert (a + b)[..|a + b| - 1] == a + init;
      assert (a + b)[|a + b| - 1] == b[|b| - 1];
      calc {
        ErrorLines(a + b);
        ErrorLines(a + init) + b[|b| - 1] + "\n";
        ErrorLines(a) + ErrorLines(init) + b[|b| - 1] + "\n";
        ErrorLines(a) + (ErrorLines(init) + b[|b| - 1] + "\n");
      }
    }
  }

  /** When no message contains a newline, the text has exactly one line per message. */
  lemma {:induction false} ErrorLinesCount(messages: seq<string>)
    ensures (forall i :: 0 <= i < |messages| ==> '\n' !in messages[i])
            ==> multiset(ErrorLines(messages))['\n'] == |messages|
  {
    if messages != [] && forall i :: 0 <= i < |messages| ==> '\n' !in messages[i] {
      var last := messages[|messages| - 1];
      ErrorLinesCount(messages[..|messages| - 1]);
      assert multiset(last)['\n'] == 0;
    }
  }

  /** The text of one attempt. */
  function AttemptText(a: ParseAttempt): (text: string)
  {
    match a
    case Mismatch(variant) => variant + ": the path does not have the shape of its template"
    case DecodeFailed(variant, field, raw) => variant + ": field " + field + " cannot be read from " + raw
  }

  /** The message for the error `ParseNegative` gives: the prefix, then one line per template tried, in order. */
  lemma RejectedPathMessage()
    ensures ErrorText(RouteParseError([Mismatch("Route1"), DecodeFailed("Route2", "dynamic", "-1")]), AttemptText)
            == "Route did not match: "
               + AttemptText(Mismatch("Route1")) + "\n"
               + AttemptText(DecodeFailed("Route2", "dynamic", "-1")) + "\n"
  {
    var a := [Mismatch("Route1"), DecodeFailed("Route2", "dynamic", "-1")];
    var lines := [AttemptText(a[0]), AttemptText(a[1])];
    assert Shown(a, AttemptText) == lines;
    assert ErrorLines(lines) == ErrorLines(lines[..1]) + lines[1] + "\n";
    assert ErrorLines(lines[..1]) == lines[0] + "\n";
  }

  /** The write target of `fmt`. */
  class Formatter {
    var written: string

    constructor ()
      ensures written == []
    {
      written := [];
    }

    method WriteStr(s: string)
      modifies this
      ensures written == old(written) + s
    {
      written := written + s;
    }
  }

  /** `RouteParseError::fmt`: writes the prefix, then each attempted route and a newline. */
  method Fmt<E>(err: RouteParseError<E>, show: E -> string, f: Formatter)
    modifies f
    ensures f.written == old(f.written) + ErrorText(err, show)
  {
    var a := err.attemptedRoutes;
    f.WriteStr(ERROR_PREFIX);
    for i := 0 to |a|
      invariant f.written == old(f.written) + ERROR_PREFIX + ErrorLines(Shown(a[..i], show))
    {
      assert a[..i + 1][..i] == a[..i];
      assert Shown(a[..i + 1], show)[..i] == Shown(a[..i], show);
      f.WriteStr(show(a[i]) + "\n");
    }
    assert a[..|a|] == a;
  }
}
