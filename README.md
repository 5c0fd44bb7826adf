# Router experiment: route templates, the `Routable` derive, and the `Route` enum

This project models the routing core of a Dioxus router experiment in Dafny.
There are two parts.

**The `Routable` derive macro** (`router/src/lib.rs`, module `Router` in `router.dfy`):
- A route template such as `"/hello_world/(dynamic)"` is cut at every `/`.
- A token written `(name)` becomes a `Dynamic(name)` segment. Every other token, the empty one included, becomes a `Static` segment holding the token verbatim.
- The macro finds the `route` attribute on each variant of the enum and collects the variants' routes in order, stopping at the first error.
- It derives two names per variant: the file of the variant's module and the name of its props struct.
- The syn and quote values are modelled as plain strings and sequences.

**The application's `Route` enum** (`src/main.rs`, module `App` in `app.dfy`):
- `Route1 { dynamic: String }` has the template `/(dynamic)`.
- `Route2 { dynamic: u32 }` has the template `/hello_world/(dynamic)`.
- A path is parsed into one of the two variants, and a variant is displayed as a path.
- `RouteParseError` is displayed as a fixed prefix followed by one line per attempted route.

Supporting modules:
- `text.dfy` (`Text`): Rust's `str::split(char)` and its inverse, `Join`.
- `decimal.dfy` (`Decimal`): `u32`, its decimal parser (`u32::from_str`) and its formatter.
- `wrappers.dfy`: `Option` and `Result`.

The segmenter is modelled as the code writes it:
- `parse_route_segments` does not strip a leading `/` and does not reject empty tokens.
- So `"/(dynamic)"` gives `[Static(""), Dynamic("dynamic")]` (`Router.LeadingSlash`).

The source has no `FromStr` or `Display` implementation for `Route`:
- The derive's `to_tokens` (router/src/lib.rs:49-60, 94-105) emits only `mod` and `pub use` items.
- No hand-written impl exists either, so the tests at src/main.rs:48-102 and `Router::new` (src/main.rs:31) refer to code that is absent.

`App.Parse` and `App.Display` are therefore this model's own design, pinned down by the `display_works` and `from_string_works` tests:
- A path is cut at every `/` with the same `Text.Split` the macro uses.
- If that leaves at least two tokens and the last is empty, that one trailing empty token (from a trailing slash) is dropped.
- The compiled templates are then tried in declaration order. A template fits when:
  - it has exactly as many segments as the path has tokens;
  - each literal segment equals its token (case-sensitive);
  - each parameter's token is non-empty.
- The first template that fits and whose field decodes wins.
- The tests leave open what a path without a leading `/` does. This design matches it against nothing (see "## Left out").

## Model

| member | source | states |
|---|---|---|
| `Router.Classify` | router/src/lib.rs:112-117 | A token becomes `Dynamic` exactly when it starts with `(` and ends with `)`, and then `(` + name + `)` is the token. Otherwise it is `Static` holding the token verbatim, the empty token included. |
| `Text.Split` | router/src/lib.rs:111 | Rust's `str::split('/')`: at least one token, and no token contains the separator. |
| `Text.JoinSplit` | router/src/lib.rs:111 | Joining the tokens with the separator gives the string back exactly, so no character is lost or added. |
| `Text.SplitCount` | router/src/lib.rs:111 | There is one token more than there are separators; empty tokens are kept. |
| `Router.ClassifyParameter` | router/src/lib.rs:112-114 | `(name)` classifies as `Dynamic(name)`. |
| `Router.ClassifyLiteral` | router/src/lib.rs:115-116 | A token that is empty or does not open with `(` classifies as `Static` of itself. |
| `Router.ClassifyAll` | router/src/lib.rs:111-118 | One segment per token, same count, and segment i is the classification of token i. |
| `Router.Segments` | router/src/lib.rs:108-121 | A template has one segment more than it has `/` characters. Rendering `Static s` as `s` and `Dynamic n` as `(n)`, then joining with `/`, reproduces the template exactly. |
| `Router.Render` | router/src/lib.rs:112-116 | Classifying a segment's rendered text gives the segment back, except for a literal that itself looks like `(name)`. |
| `Router.LeadingSlash` | router/src/lib.rs:111-116 | A leading `/` is not stripped: it yields a first `Static("")`, followed by the segments of the rest. |
| `Router.ParseRouteSegments` | router/src/lib.rs:108-121 | The push loop returns the segments of the template. It has one segment per `/` plus one, segment i comes from token i, and the segments render back to the template. |
| `Router.FindRouteAttribute` | router/src/lib.rs:72-75 | Returns None exactly when no attribute is named `route`. Otherwise it returns the position of the first one. |
| `Router.ParseRoute` | router/src/lib.rs:71-91 | Reports the missing-attribute error, with the text `Routable variants must have a #[route(...)] attribute`, exactly when no attribute is named `route`. It succeeds exactly when the first such attribute holds a string literal. The route then takes the variant's name, that string and its segments. |
| `Router.ParseRouteEnum` | router/src/lib.rs:25-46 | Input that is not an enum is rejected, and only such input gets the text `Routable can only be derived for enums`. Otherwise it succeeds exactly when every variant parses, with one route per variant in variant order. On failure, the error is that of the first variant that fails. |
| `Router.ModuleFilePath` | router/src/lib.rs:96 | Gives no path (Rust panics) exactly when the template is empty or its first character is not one byte. Otherwise the path is the template without its first character, plus `.rs`. |
| `Router.ModulePathMirrorsSegments` | router/src/lib.rs:96 | For a template with a leading `/`, the module file path minus `.rs` has exactly the template's segments after the leading empty one. |
| `Router.PropsName` | router/src/lib.rs:98 | The props name is the variant name followed by `Props`. |
| `Router.PropsNameInjective` | router/src/lib.rs:98-103 | Distinct variant names give distinct props names. |
| `Router.RouteModuleOf` | router/src/lib.rs:94-105 | A variant's module is named after the variant, with `<Variant>Props`, and is read from the template minus its first character plus `.rs`. It is absent exactly where the file path would panic. |
| `Decimal.ParseU32` | src/main.rs:45 | A `u32` field decodes exactly from a non-empty string of decimal digits whose value is at most 4294967295, and yields that value. |
| `Decimal.FormatU32` | src/main.rs:56-58 | A `u32` is written as canonical digits (no leading zero), which `ParseU32` reads back as the same number. |
| `Decimal.FormatParse` | src/main.rs:84-87 | Canonical digits that parse as a `u32` are exactly the digits that number is written as. |
| `App.TemplateSegments` | src/main.rs:40-46 | The macro's segmenter compiles `/(dynamic)` to `[Static(""), Dynamic("dynamic")]`. It compiles `/hello_world/(dynamic)` to `[Static(""), Static("hello_world"), Dynamic("dynamic")]`. |
| `App.DeclaredRoutes` | src/main.rs:40-46 | The derive reads `Route1`'s and `Route2`'s templates from their `route` attributes. |
| `App.SingleRouteAttribute` | router/src/lib.rs:71-91 | A variant whose only attribute is `#[route(t)]` gets route `t` with the segments of `t`. |
| `App.DeclaredModules` | router/src/lib.rs:96-98 | For the declared variants the macro emits the module files `(dynamic).rs` and `hello_world/(dynamic).rs` and the props names `Route1Props` and `Route2Props`. |
| `App.SlashRouteModule` | router/src/lib.rs:96-98 | For a template `/rest`, the module file is `rest.rs` and the props name is the variant name plus `Props`. |
| `App.PathTokens` | src/main.rs:76-87 | The path's `/`-separated tokens, none holding a `/`. Joined with `/` they give the path back, less its final `/` when it has one. |
| `App.FitsIsFilled` | src/main.rs:67-102 | For a template whose one parameter is its last segment (both declared templates are), tokens fit it exactly when they are the template with their own non-empty last token in the parameter slot. |
| `App.Parse` | src/main.rs:67-102 | The path reads as `Route1` exactly when it fits Route1's template. It reads as `Route2` exactly when it does not fit Route1's template, fits Route2's template, and its last token is a `u32`. The field is that last token. A failure lists two attempts. Route1's is a mismatch. Route2's is a decode failure naming the last token when the path fits Route2's template, and a mismatch otherwise. |
| `App.Display` | src/main.rs:48-65 | `Route1(d)` is written `/d`, and `Route2(n)` is written `/hello_world/` followed by the digits of `n`. |
| `App.DisplayHello` | src/main.rs:50-54 | `Route1("hello")` is written `/hello`. |
| `App.DisplayNumber` | src/main.rs:56-58 | `Route2(1234)` is written `/hello_world/1234`. |
| `App.DisplayHelloWorld` | src/main.rs:60-64 | `Route1("hello_world")` is written `/hello_world`. |
| `App.ParseDisplay` | src/main.rs:48-95 | Parsing a displayed route gives that route back. For `Route1` this requires a non-empty string without `/`. |
| `App.ParsedIsDisplayable` | src/main.rs:67-95 | Every parsed route can be displayed and read back as itself. |
| `App.ParsedPathIsDisplay` | src/main.rs:67-95 | A path that parses is the displayed route, or the displayed route plus one `/`. For `Route2` this needs the number written without leading zeros. |
| `App.TrailingSlashIgnored` | src/main.rs:76-87 | A path not already ending in `/` parses the same as that path with one `/` appended. |
| `App.ParseHello` | src/main.rs:69-75 | `/hello` parses to `Route1("hello")`. |
| `App.ParseHelloTrailingSlash` | src/main.rs:76-82 | `/hello/` parses to `Route1("hello")`. |
| `App.ParseNumber` | src/main.rs:84-85 | `/hello_world/1234` parses to `Route2(1234)`. |
| `App.ParseNumberTrailingSlash` | src/main.rs:86-87 | `/hello_world/1234/` parses to `Route2(1234)`. |
| `App.ParseExactCount` | src/main.rs:89-95 | `/hello_world` parses to `Route1("hello_world")`: the segment count must match exactly, and a prefix does not match. |
| `App.ParseNegative` | src/main.rs:97-101 | `/hello_world/-1` is rejected. Route1 is reported as a mismatch, then Route2 as unable to decode `-1`. |
| `App.DecodeFailureReported` | src/main.rs:97-101 | Any `/hello_world/<token>` whose token is not a `u32` is rejected, and Route2's attempt names that token. |
| `App.ErrorText` | src/main.rs:11-18 | The error text starts with `Route did not match: `. When no attempt's text contains a newline, it has exactly one newline per attempted route. |
| `App.ErrorLinesAppend` | src/main.rs:14-16 | The lines for two lists of messages are the first list's lines followed by the second's, so message order is kept. |
| `App.ErrorLinesCount` | src/main.rs:14-16 | When no message contains a newline, there is exactly one newline per attempted route. |
| `App.RejectedPathMessage` | src/main.rs:11-18 | The error for `/hello_world/-1` displays as `Route did not match: `, then Route1's line, then Route2's line, each ending in a newline. |
| `App.Fmt` | src/main.rs:11-18 | `fmt` appends to the formatter the prefix `Route did not match: `, then each attempted route's text followed by a newline, in list order. |
| `App.Formatter.WriteStr` | src/main.rs:13-15 | Writing to the formatter appends the text to what it already holds. |

## Left out

- Proc-macro plumbing is not modelled: `TokenStream`, `parse_macro_input!`, `quote!` token emission, `Span` and error spans (router/src/lib.rs:7-17, 49-60, 100-104). The model computes only the strings and values these carry.
- `derive_routable` unwraps the result of `RouteEnum::parse`, turning an error into a panic. `Router.ParseRouteEnum` returns the error as a value instead.
- The `mod pages { ... }` wrapper and `pub use pages::*` emitted for the whole enum (router/src/lib.rs:49-60) are not modelled. Only each variant's module strings are (`Router.RouteModuleOf`).
- The `#[path = ...]` attributes and the loading of the page modules from the file system are compile-time file loading.
- `Ident::new` panics on a name that is not a valid identifier, such as the empty name from a `()` token. Identifier names are treated as opaque strings.
- `attr.path.is_ident("route")` is modelled by comparing the attribute path's text with `route`.
- `parse_args::<LitStr>()` is modelled by `Attribute.args`. It is None when the arguments are not one string literal, and its error text is syn's.
- `Router::new`, `HistoryProvider::current_path`, `Routable::render`, `root` and `main` (src/main.rs:21-38, 104-131) are browser-history I/O and UI rendering.
- `Route` has no `FromStr` or `Display` implementation in the source, and the derive does not generate one. `App.Parse` and `App.Display` are one design that satisfies the tests, and the text of each attempt (`App.AttemptText`) is the model's own.
- App.Parse: a path without a leading `/` (such as `hello`) matches no template, because both templates begin with an empty literal segment. The tests do not fix this case. A design that stripped the leading `/` first would accept such paths.
- The page files are not read. src/pages/hello_world/(dynamic).rs declares the component `Route3`, so `#[inline_props]` generates `Route3Props` there. The `pub use` the macro emits for `Route2` (`Route2Props`, `Route2`) therefore names items that file does not define. `App.DeclaredModules` states only the strings the macro emits.
- Decimal.ParseU32: does not accept the leading `+` that Rust's `u32::from_str` accepts. Only plain decimal digits are modelled.
- App.Fmt: the formatter sink never fails, so the `fmt::Error` that `write!`/`writeln!` can propagate is not modelled.
